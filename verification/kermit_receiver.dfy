/** k_recv as it runs: characters from the line, data straight to memory, replies
    built in a small buffer. */
module KermitReceiver {
  import opened KermitCode
  import opened KermitPacket
  import opened KermitState
  import opened Options

  const SEND_DATA_SIZE: nat := 20

  /** What the code knows of an outcome: a packet, an error to answer, or still waiting. */
  datatype Verdict = Good | Bad | Waiting | Stop

  function VerdictOf(o: Outcome): Verdict {
    match o
    case Starved => Waiting
    case Cancelled => Stop
    case HeaderError => Bad
    case BodyError(_, _, _) => Bad
    case Accepted(_, _, _) => Good
  }

  class Receiver {
    // the line in both directions
    const input: seq<byte>
    var pos: nat
    var sent: seq<byte>
    // memory from bin_start_address on, os_data_addr, k_data_escape
    var mem: seq<byte>
    var addr: nat
    var escape: bool
    var addrSaved: nat
    var escapeSaved: bool
    // sequence numbers and what the sender asked for
    var lastN: int
    var n: byte
    var quote: byte
    var eol: byte
    var padCount: nat
    var padChar: byte
    // send_parms, and a_b for replies
    const parms: array<byte>
    var parmCount: nat
    const reply: array<byte>

    function State(): Rx
      reads `mem, `addr, `escape, `addrSaved, `escapeSaved, `lastN, `n, `quote, `eol, `padCount, `padChar
    {
      Rx(Data(mem, addr, escape), addrSaved, escapeSaved, lastN, n, quote, eol, padCount, padChar)
    }

    ghost predicate Valid()
      reads this
    {
      && pos <= |input| && parms.Length == SEND_DATA_SIZE && reply.Length == 24
      && parms != reply && n < 224
      && OkRx(State())
    }

    constructor (input: seq<byte>)
      ensures Valid() && State() == START && pos == 0 && sent == [] && this.input == input
      ensures fresh(parms) && fresh(reply)
    {
      this.input := input;
      pos, sent := 0, [];
      mem, addr, escape, addrSaved, escapeSaved := [], 0, false, 0, false;
      lastN, n := -1, 0;
      quote, eol, padCount, padChar := K_ESCAPE, CR, 0, 0;
      parmCount := 0;
      parms := new byte[SEND_DATA_SIZE](_ => 0);
      reply := new byte[24](_ => 0);
    }

    // ---- data ----

    method BinDataChar(c: byte)
      requires InMem(State().data)
      modifies `mem, `addr
      ensures State() == old(State()).(data := Write(old(State()).data, c))
    {
      mem := if addr < |mem| then mem[addr := c] else mem + [c];
      addr := addr + 1;
    }

    method KDataChar(c: byte)
      requires InMem(State().data)
      modifies `mem, `addr, `escape
      ensures State() == old(State()).(data := DataChar(old(State()).data, quote, c))
    {
      if escape {
        BinDataChar(Ktrans(c));
        escape := false;
      } else if c == quote {
        escape := true;
      } else {
        BinDataChar(c);
      }
    }

    /** k_data_save or k_data_restore, as the sequence number decides. */
    method Checkpoint(number: byte)
      requires OkRx(State())
      modifies `n, `lastN, `addr, `escape, `addrSaved, `escapeSaved
      ensures State() == Begin(old(State()), number)
    {
      n := number;
      if n == lastN {
        addr, escape := addrSaved, escapeSaved;
      } else {
        lastN := n;
        addrSaved, escapeSaved := addr, escape;
      }
    }

    // ---- taking a packet ----

    /** Skips to a start character; None when the line ends first, false at ^C. */
    method WaitForStart() returns (r: Option<bool>)
      requires Valid()
      modifies `pos
      ensures pos <= |input|
      ensures Parse(input, old(pos)) ==
              match r
              case None => Turn(Starved, pos)
              case Some(true) => Header(input, pos)
              case Some(false) => Turn(Cancelled, pos)
    {
      hide Header;
      while pos < |input|
        invariant pos <= |input| && Parse(input, pos) == Parse(input, old(pos))
      {
        var c := input[pos];
        pos := pos + 1;
        if c == SOH { return Some(true); }
        if c == ETX { return Some(false); }
      }
      return None;
    }

    /** The send parameters stored so far: the last place is overwritten when they overflow. */
    ghost predicate Stored(data: seq<byte>)
      reads `parmCount, parms
    {
      && parms.Length == SEND_DATA_SIZE
      && parmCount == (if |data| < 19 then |data| else 19)
      && forall i :: 0 <= i < parmCount ==> parms[i] == data[i]
    }

    method StoreParm(c: byte, ghost data: seq<byte>)
      requires Stored(data)
      modifies `parmCount, parms
      ensures Stored(data + [c])
    {
      parms[parmCount] := c;
      parmCount := parmCount + 1;
      if parmCount >= SEND_DATA_SIZE {
        parmCount := parmCount - 1;
      }
    }

    /** Data, block check and end of line. */
    method TakeBody(kind: byte, len: int, sum0: nat) returns (v: Verdict, ghost o: Outcome)
      requires Valid() && Stored([])
      modifies `pos, `mem, `addr, `escape, `parmCount, parms
      ensures pos <= |input| && v == VerdictOf(o)
      ensures Body(input, old(pos), n, kind, len, sum0, []) == Turn(o, pos)
      ensures o == Starved || o == BodyError(n, Some(kind), OutcomeData(o))
              || o == Accepted(n, Some(kind), OutcomeData(o))
      ensures o != Starved ==> State() == Fed(old(State()), Some(kind), OutcomeData(o))
      ensures kind == SEND_TYPE ==> Stored(OutcomeData(o)) || o == Starved
      ensures OkRx(State()) || o == Starved
    {
      hide Check, DataChars, Body;
      var length: int, sum: nat := len, sum0;
      ghost var data: seq<byte> := [];
      FedNothing(old(State()), kind);
      while length > 1
        invariant pos <= |input|
        invariant Body(input, pos, n, kind, length, sum, data) == Body(input, old(pos), n, kind, len, sum0, [])
        invariant InMem(State().data) && State() == Fed(old(State()), Some(kind), data)
        invariant kind == SEND_TYPE ==> Stored(data)
        decreases |input| - pos
      {
        BodyStep(input, pos, n, kind, length, sum, data);
        FedMore(old(State()), kind, data, if pos < |input| then input[pos] else 0);
        if pos == |input| { return Waiting, Starved; }
        var c := input[pos];
        pos := pos + 1;
        if IsControl(c) {
          FedKeeps(old(State()), Some(kind), data);
          return Bad, BodyError(n, Some(kind), data);
        }
        sum := sum + c;
        length := length - 1;
        if kind == DATA_TYPE {
          KDataChar(c);
        } else if kind == SEND_TYPE {
          StoreParm(c, data);
        }
        data := data + [c];
      }
      FedKeeps(old(State()), Some(kind), data);
      BodyStep(input, pos, n, kind, length, sum, data);
      if pos == |input| { return Waiting, Starved; }
      var c := input[pos];
      pos := pos + 1;
      if IsControl(c) || c != Check(sum) { return Bad, BodyError(n, Some(kind), data); }
      if pos == |input| { return Waiting, Starved; }
      c := input[pos];
      pos := pos + 1;
      if c != CR { return Bad, BodyError(n, Some(kind), data); }
      return Good, Accepted(n, Some(kind), data);
    }

    /** The two length characters and the header check of a long packet. */
    method TakeLong(kind: byte, sum0: nat) returns (v: Verdict, ghost o: Outcome)
      requires Valid() && Stored([])
      modifies `pos, `mem, `addr, `escape, `parmCount, parms
      ensures pos <= |input| && v == VerdictOf(o)
      ensures LongHeader(input, old(pos), n, kind, sum0) == Turn(o, pos)
      ensures o == Starved || o == BodyError(n, Some(kind), OutcomeData(o))
              || o == Accepted(n, Some(kind), OutcomeData(o))
      ensures o != Starved ==> State() == Fed(old(State()), Some(kind), OutcomeData(o))
      ensures kind == SEND_TYPE ==> Stored(OutcomeData(o)) || o == Starved
      ensures OkRx(State()) || o == Starved
    {
      hide Check, Body, Fed, Untochar;
      FedNothing(State(), kind);
      var sum: nat := sum0;
      if pos == |input| { return Waiting, Starved; }
      var hi := input[pos];
      pos := pos + 1;
      if IsControl(hi) { return Bad, BodyError(n, Some(kind), []); }
      sum := sum + hi;
      if pos == |input| { return Waiting, Starved; }
      var lo := input[pos];
      pos := pos + 1;
      if IsControl(lo) { return Bad, BodyError(n, Some(kind), []); }
      sum := sum + lo;
      if pos == |input| { return Waiting, Starved; }
      var c := input[pos];
      pos := pos + 1;
      if IsControl(c) || c != Check(sum) { return Bad, BodyError(n, Some(kind), []); }
      sum := sum + c;
      var length: int := Untochar(hi) * 95 + Untochar(lo);
      v, o := TakeBody(kind, length, sum);
    }

    /** A packet from behind its start character: header, checkpoint, type, contents. */
    method TakePacket() returns (v: Verdict, kind: byte, ghost o: Outcome)
      requires Valid() && Stored([])
      modifies `pos, `mem, `addr, `escape, `addrSaved, `escapeSaved, `lastN, `n, `parmCount, parms
      ensures pos <= |input| && v == VerdictOf(o)
      ensures Header(input, old(pos)) == Turn(o, pos)
      ensures v != Stop && (v == Waiting || State() == Taken(old(State()), o))
      ensures v == Bad ==> o == HeaderError || (o.BodyError? && o.n == n)
      ensures v == Good ==>
                o == Accepted(n, Some(kind), OutcomeData(o)) && (kind == SEND_TYPE ==> Stored(OutcomeData(o)))
      ensures v == Waiting || (OkRx(State()) && n < 224)
    {
      hide Check, Body, Fed, LongHeader, Begin, Untochar, Sum3;
      kind := 0;
      if pos == |input| { return Waiting, 0, Starved; }
      var c1 := input[pos];
      pos := pos + 1;
      if IsControl(c1) { return Bad, 0, HeaderError; }
      var sum: nat := c1;
      var length: int := Untochar(c1);
      if pos == |input| { return Waiting, 0, Starved; }
      var c2 := input[pos];
      pos := pos + 1;
      if IsControl(c2) { return Bad, 0, HeaderError; }
      sum := sum + c2;
      length := length - 1;
      TocharOf(c2);
      assert input[old(pos)] == c1 && input[old(pos) + 1] == c2;
      v, kind, o := TakeTyped(c1, c2, length, sum);
    }

    /** A packet from its sequence number on. */
    method TakeTyped(c1: byte, c2: byte, length0: int, sum0: nat) returns (v: Verdict, kind: byte, ghost o: Outcome)
      requires Valid() && Stored([]) && pos >= 2 && input[pos - 2] == c1 && input[pos - 1] == c2
      requires !IsControl(c1) && !IsControl(c2) && Untochar(c2) < 224
      requires length0 == Untochar(c1) - 1 && sum0 == c1 as int + c2
      modifies `pos, `mem, `addr, `escape, `addrSaved, `escapeSaved, `lastN, `n, `parmCount, parms
      ensures pos <= |input| && v == VerdictOf(o)
      ensures Header(input, old(pos) - 2) == Turn(o, pos)
      ensures v != Stop && (v == Waiting || State() == Taken(old(State()), o))
      ensures v == Bad ==> o.BodyError? && o.n == n
      ensures v == Good ==>
                o == Accepted(n, Some(kind), OutcomeData(o)) && (kind == SEND_TYPE ==> Stored(OutcomeData(o)))
      ensures v == Waiting || (OkRx(State()) && n < 224)
    {
      hide Check, Body, Fed, LongHeader, Begin, Untochar, Sum3;
      var length, sum := length0, sum0;
      kind := 0;
      BeginOk(State(), Untochar(c2));
      Checkpoint(Untochar(c2));
      ghost var rx := State();
      FedNone(rx);
      if pos == |input| { return Waiting, 0, Starved; }
      kind := input[pos];
      pos := pos + 1;
      if IsControl(kind) { return Bad, 0, BodyError(n, None, []); }
      sum := sum + kind;
      SumOf3(c1, c2, kind);
      length := length - 1;
      if length == -2 {
        v, o := TakeLong(kind, sum);
      } else {
        v, o := TakeBody(kind, length, sum);
      }
    }

    // ---- replies ----

    /** chk1: sums up to the NUL and folds. */
    method Chk1(ghost core: seq<byte>) returns (r: int)
      requires reply.Length == 24 && 1 + |core| < 24
      requires reply[1..1 + |core|] == core && 0 !in core && reply[1 + |core|] == 0
      ensures 0 <= r < 64 && Tochar(r) == Check(Sum(core))
    {
      var total: nat, p := 0, 1;
      while reply[p] != 0
        invariant 1 <= p <= 1 + |core| && total == Sum(core[..p - 1])
        invariant p <= |core| ==> reply[1..1 + |core|][p - 1] == reply[p]
        decreases 24 - p
      {
        assert reply[1..1 + |core|][p - 1] == reply[p];
        assert core[..p - 1 + 1][..p - 1] == core[..p - 1];
        total := total + reply[p];
        p := p + 1;
      }
      assert core[..p - 1] == core;
      r := (total + total / 64 % 4) % 64;
    }

    /** s1_sendpacket: the padding, then the buffer up to its NUL. */
    method SendPacket(ghost packet: seq<byte>)
      requires reply.Length == 24 && |packet| < 24
      requires forall i :: 0 <= i < |packet| ==> reply[i] == packet[i] && packet[i] != 0
      requires reply[|packet|] == 0
      modifies `sent
      ensures sent == old(sent) + (Pads(padCount, padChar) + packet)
    {
      var count := padCount;
      ghost var before := sent;
      while count > 0
        invariant 0 <= count <= padCount
        invariant sent + Pads(count, padChar) == before + Pads(padCount, padChar)
      {
        assert sent + ([padChar] + Pads(count - 1, padChar)) == sent + [padChar] + Pads(count - 1, padChar);
        sent := sent + [padChar];
        count := count - 1;
      }
      assert sent + [] == sent;
      ghost var padded := sent;
      var i := 0;
      while reply[i] != 0
        invariant 0 <= i <= |packet| && sent == padded + packet[..i]
        decreases 24 - i
      {
        assert packet[..i + 1] == packet[..i] + [packet[i]];
        sent := sent + [reply[i]];
        i := i + 1;
      }
      assert packet[..i] == packet;
      assert before + Pads(padCount, padChar) + packet == before + (Pads(padCount, padChar) + packet);
    }

    /** Closes the buffer behind `size` characters of contents: check, end of line, NUL. */
    method CloseAndSend(size: nat, ghost core: seq<byte>)
      requires reply.Length == 24 && size == |core| && size + 4 <= 24
      requires reply[1..1 + size] == core && 0 !in core
      modifies `sent, reply
      ensures sent == old(sent) + (Pads(padCount, padChar) + Wire(core, eol))
    {
      hide Check, Tochar, Pads, Wire, Sum;
      var length := size;
      length := length + 1;
      reply[0] := SOH;
      reply[length] := 0;
      assert reply[1..1 + size] == old(reply[1..1 + size]);
      var c := Chk1(core);
      CheckIsPrintable(Sum(core));
      reply[length] := Tochar(c);
      length := length + 1;
      reply[length] := eol;
      length := length + 1;
      reply[length] := 0;
      ghost var packet := Wire(core, eol);
      WireParts(core, eol);
      forall i | 1 <= i <= size ensures reply[i] == packet[i] {
        assert reply[1..1 + size] == old(reply[1..1 + size]);
        assert reply[i] == reply[1..1 + size][i - 1];
      }
      SendPacket(packet);
    }

    method SendShort(number: byte, kind: byte)
      requires reply.Length == 24 && number < 224 && kind != 0
      modifies `sent, reply
      ensures sent == old(sent) + (Pads(padCount, padChar) + Wire(ShortReply(number, kind), eol))
    {
      reply[1] := Tochar(3);
      reply[2] := Tochar(number);
      reply[3] := kind;
      assert reply[1..4] == ShortReply(number, kind);
      CloseAndSend(3, ShortReply(number, kind));
    }

    /** The fields of the offer, as many as there are parameters to answer. */
    method OfferFields(bytes: nat) returns (length: nat)
      requires reply.Length == 24
      modifies reply
      ensures length == 3 + (if bytes >= 10 then 13 else bytes)
      ensures forall q :: 4 <= q <= length ==> reply[q] == OFFER[q - 4]
    {
      hide Tochar;
      length := OfferFirst(bytes);
      if bytes >= 6 { length := length + 1; reply[length] := 35; }
      if bytes >= 7 { length := length + 1; reply[length] := 78; }
      if bytes >= 8 { length := length + 1; reply[length] := 49; }
      if bytes >= 9 { length := length + 1; reply[length] := 78; }
      if bytes >= 10 {
        reply[13] := Tochar(2);
        reply[14] := Tochar(0);
        reply[15] := Tochar(94);
        reply[16] := Tochar(94);
        length := 16;
      }
    }

    /** The first five: longest packet, timeout, padding and its character, end of line. */
    method OfferFirst(bytes: nat) returns (length: nat)
      requires reply.Length == 24
      modifies reply
      ensures length == 3 + (if bytes >= 5 then 5 else bytes)
      ensures forall q :: 4 <= q <= length ==> reply[q] == OFFER[q - 4]
    {
      hide Tochar;
      length := 3;
      if bytes >= 1 { length := length + 1; reply[length] := Tochar(94); }
      if bytes >= 2 { length := length + 1; reply[length] := Tochar(1); }
      if bytes >= 3 { length := length + 1; reply[length] := Tochar(0); }
      if bytes >= 4 { length := length + 1; reply[length] := 64; }
      if bytes >= 5 { length := length + 1; reply[length] := Tochar(CR); }
    }

    /** What the sender asked for: padding, end of line, prefix. */
    method Remember(bytes: nat, ghost data: seq<byte>)
      requires Stored(data) && bytes == Params(data)
      modifies `quote, `eol, `padCount, `padChar
      ensures State() == Negotiated(old(State()), data)
    {
      hide Ktrans;
      eol, padCount, padChar, quote := CR, 0, 0, K_ESCAPE;
      if bytes >= 3 { padCount := Untochar(parms[2]); }
      if bytes >= 4 { padChar := Ktrans(parms[3]); }
      if bytes >= 5 { eol := Untochar(parms[4]); }
      if bytes >= 6 { quote := parms[5]; }
    }

    /** handle_send_packet: remembers what the sender asked for and offers what the
        receiver can do, one field for each parameter. */
    method HandleSendPacket(number: byte, ghost data: seq<byte>)
      requires Valid() && Stored(data) && number < 224
      modifies `quote, `eol, `padCount, `padChar, `parmCount, `sent, reply
      ensures State() == Negotiated(old(State()), data)
      ensures sent == old(sent) + (Pads(padCount, padChar) + Wire(ParamReply(number, data), eol))
    {
      hide Wire, Pads, Check, Sum, Negotiated;
      var bytes := parmCount;
      if bytes == SEND_DATA_SIZE - 1 {
        bytes := bytes - 1;
      }
      Remember(bytes, data);
      var length := OfferFields(bytes);
      reply[1] := Tochar(length);
      reply[2] := Tochar(number);
      reply[3] := ACK_TYPE;
      OfferCore(number, data);
      ghost var core := ParamReply(number, data);
      assert forall q :: 4 <= q <= length ==> reply[q] == core[q - 1];
      assert reply[1..1 + length] == core;
      CloseAndSend(length, core);
    }

    // ---- the main loop ----

    /** The end of a turn: an error is undone and refused, a packet acknowledged. */
    method Answer(v: Verdict, kind: byte, ghost rx: Rx, ghost o: Outcome)
      requires Valid() && OkRx(rx) && State() == Taken(rx, o)
      requires v == VerdictOf(o) && (v == Good || v == Bad)
      requires v == Bad ==> o == HeaderError || (o.BodyError? && o.n == n)
      requires v == Good ==>
                o == Accepted(n, Some(kind), OutcomeData(o)) && (kind == SEND_TYPE ==> Stored(OutcomeData(o)))
      modifies `addr, `escape, `quote, `eol, `padCount, `padChar, `parmCount, `sent, reply
      ensures State() == Apply(rx, o) && sent == old(sent) + Reply(State(), o)
    {
      hide Fed, Begin, Wire, Pads, Negotiated, OkRx;
      if v == Bad {
        addr, escape := addrSaved, escapeSaved;
        SendShort(n, NACK_TYPE);
      } else if kind == SEND_TYPE {
        HandleSendPacket(n, OutcomeData(o));
      } else {
        SendShort(n, ACK_TYPE);
      }
    }

    /** One turn of the main loop. */
    method TakeTurn() returns (v: Verdict, kind: byte, ghost o: Outcome)
      requires Valid()
      modifies this, parms, reply
      ensures pos <= |input| && Parse(input, old(pos)) == Turn(o, pos) && v == VerdictOf(o)
      ensures v == Good ==> o.Accepted? && o.kind == Some(kind)
      ensures v != Waiting ==> Valid() && State() == Apply(old(State()), o)
      ensures v != Waiting ==> sent == old(sent) + Reply(State(), o)
      ensures v == Waiting ==> sent == old(sent)
    {
      hide Parse, Header, Taken, Fed, Wire, Pads, Reply;
      kind, parmCount := 0, 0;
      var start := WaitForStart();
      if start.None? { return Waiting, 0, Starved; }
      if !start.value {
        NoReply(State());
        assert sent + [] == sent;
        return Stop, 0, Cancelled;
      }
      ghost var rx := State();
      v, kind, o := TakePacket();
      if v == Waiting { return; }
      ApplyKeeps(rx, o);
      Answer(v, kind, rx, o);
    }

    /** k_recv: turns until a break is accepted, or ^C, or the line ends. Whatever comes in, the
        outcomes are those of the line, the state is their fold, and one reply goes back for each. */
    method KRecv() returns (size: nat, done: bool, ghost outcomes: seq<Outcome>)
      requires Valid() && State() == START && pos == 0 && sent == []
      modifies this, parms, reply
      ensures OutcomesOf(input, 0, outcomes)
      ensures if done then EndsOnBreak(outcomes) else EndsOtherwise(outcomes)
      ensures done ==> Valid() && State() == ApplyAll(START, outcomes) && size == |Content(State().data)|
      ensures sent == Replies(START, outcomes)
    {
      hide Parse, Reply, Apply, Replies, ApplyAll;
      NoReplies(START);
      outcomes := [];
      done := false;
      size := 0;
      ghost var ends: seq<nat> := [0];
      while true
        invariant Valid() && State() == ApplyAll(START, outcomes)
        invariant Follows(input, outcomes, ends) && ends[|ends| - 1] == pos && sent == Replies(START, outcomes)
        invariant forall i :: 0 <= i < |outcomes| ==> !IsBreak(outcomes[i])
        decreases |input| - pos
      {
        Progress(input, pos);
        ghost var from := pos;
        var v, kind;
        ghost var o;
        v, kind, o := TakeTurn();
        ApplyOne(START, outcomes, o);
        ReplyOne(START, outcomes, o);
        FollowsOne(input, outcomes, ends, o, pos);
        outcomes, ends := outcomes + [o], ends + [pos];
        FollowsAll(input, outcomes, ends, 0);
        assert outcomes[0..] == outcomes;
        if v == Waiting || v == Stop { return 0, false, outcomes; }
        if v == Good && kind == BREAK_TYPE { return addr, true, outcomes; }
      }
    }
  }

  predicate IsBreak(o: Outcome) { o.Accepted? && o.kind == Some(BREAK_TYPE) }

  /** The last turn accepts a break, and no other one does. */
  ghost predicate EndsOnBreak(os: seq<Outcome>) {
    os != [] && IsBreak(os[|os| - 1]) && forall i :: 0 <= i < |os| - 1 ==> !IsBreak(os[i])
  }

  /** The last turn waits forever or meets a ^C, and no turn accepts a break. */
  ghost predicate EndsOtherwise(os: seq<Outcome>) {
    os != [] && (os[|os| - 1] == Starved || os[|os| - 1] == Cancelled) && forall i :: 0 <= i < |os| ==> !IsBreak(os[i])
  }

  function OutcomeData(o: Outcome): seq<byte> {
    match o
    case BodyError(_, _, data) => data
    case Accepted(_, _, data) => data
    case _ => []
  }

  lemma FedNothing(rx: Rx, kind: byte)
    requires OkRx(rx)
    ensures Fed(rx, Some(kind), []) == rx
  {
  }

  lemma FedMore(rx: Rx, kind: byte, data: seq<byte>, c: byte)
    requires OkRx(rx)
    ensures var f := Fed(rx, Some(kind), data);
            Fed(rx, Some(kind), data + [c]) ==
            if kind == DATA_TYPE then f.(data := DataChar(f.data, f.quote, c)) else f
  {
    assert (data + [c])[..|data + [c]| - 1] == data;
  }

  /** One turn of the data loop. */
  lemma BodyStep(s: seq<byte>, p: nat, n: byte, kind: byte, length: int, sum: nat, data: seq<byte>)
    requires p <= |s|
    ensures p == |s| ==> Body(s, p, n, kind, length, sum, data) == Turn(Starved, p)
    ensures p < |s| && IsControl(s[p]) ==>
              Body(s, p, n, kind, length, sum, data) == Turn(BodyError(n, Some(kind), data), p + 1)
    ensures p < |s| && !IsControl(s[p]) && length > 1 ==>
              Body(s, p, n, kind, length, sum, data) == Body(s, p + 1, n, kind, length - 1, sum + s[p], data + [s[p]])
    ensures p < |s| && !IsControl(s[p]) && length <= 1 ==>
              Body(s, p, n, kind, length, sum, data) ==
              if s[p] != Check(sum) then Turn(BodyError(n, Some(kind), data), p + 1)
              else if p + 1 == |s| then Turn(Starved, p + 1)
              else if s[p + 1] != CR then Turn(BodyError(n, Some(kind), data), p + 2)
              else Turn(Accepted(n, Some(kind), data), p + 2)
  {
    hide Check;
  }

  lemma BeginOk(rx: Rx, n: byte)
    requires OkRx(rx)
    ensures OkRx(Begin(rx, n)) && Begin(rx, n).n == n
  {
  }

  lemma TocharOf(c: byte)
    requires !IsControl(c)
    ensures Untochar(c) < 224
  {
  }

  lemma SumOf3(a: byte, b: byte, c: byte)
    ensures Sum3(a, b, c) == a as int + b as int + c as int
  {
  }

  lemma FedNone(rx: Rx)
    requires OkRx(rx)
    ensures Fed(rx, None, []) == rx
  {
  }

  lemma OfferCore(n: byte, s: seq<byte>)
    requires n < 224
    ensures var core := ParamReply(n, s);
            && |core| == 3 + (if Params(s) >= 10 then 13 else Params(s))
            && core[0] == Tochar(|core|) && core[1] == Tochar(n) && core[2] == ACK_TYPE
            && (forall i :: 3 <= i < |core| ==> core[i] == OFFER[i - 3])
            && forall i :: 0 <= i < |core| ==> core[i] != 0
  {
    assert |OFFER| == 13;
    assert forall i :: 0 <= i < 13 ==> OFFER[i] != 0;
  }

  lemma WireParts(core: seq<byte>, eol: byte)
    ensures var w := Wire(core, eol);
            && |w| == |core| + (if eol == 0 then 2 else 3)
            && w[0] == SOH && w[|core| + 1] == Check(Sum(core)) && (eol != 0 ==> w[|core| + 2] == eol)
            && forall i :: 1 <= i <= |core| ==> w[i] == core[i - 1]
  {
    hide Check, Sum;
  }

  lemma NoReply(rx: Rx)
    ensures Reply(rx, Cancelled) == []
  {
  }

  // ---- sequences of turns ----

  ghost function ApplyAll(rx: Rx, os: seq<Outcome>): (r: Rx)
    requires OkRx(rx)
    ensures OkRx(r)
  {
    if os == [] then rx
    else
      var before := ApplyAll(rx, os[..|os| - 1]);
      ApplyKeeps(before, os[|os| - 1]);
      Apply(before, os[|os| - 1])
  }

  lemma ApplyOne(rx: Rx, os: seq<Outcome>, o: Outcome)
    requires OkRx(rx)
    ensures ApplyAll(rx, os + [o]) == Apply(ApplyAll(rx, os), o)
  {
    assert (os + [o])[..|os + [o]| - 1] == os;
  }

  /** Everything that is sent back: one reply for each turn, in the state that the turn leaves. */
  ghost function Replies(rx: Rx, os: seq<Outcome>): seq<byte>
    requires OkRx(rx)
  {
    if os == [] then []
    else Replies(rx, os[..|os| - 1]) + Reply(ApplyAll(rx, os), os[|os| - 1])
  }

  lemma NoReplies(rx: Rx)
    requires OkRx(rx)
    ensures Replies(rx, []) == [] && ApplyAll(rx, []) == rx
  {
  }

  lemma ReplyOne(rx: Rx, os: seq<Outcome>, o: Outcome)
    requires OkRx(rx)
    ensures Replies(rx, os + [o]) == Replies(rx, os) + Reply(ApplyAll(rx, os + [o]), o)
    ensures o == Starved ==> Replies(rx, os + [o]) == Replies(rx, os)
  {
    hide ApplyAll;
    assert (os + [o])[..|os + [o]| - 1] == os;
    if o == Starved { assert Replies(rx, os) + [] == Replies(rx, os); }
  }

  /** The outcomes are those of the line, turn after turn from p on. */
  ghost predicate OutcomesOf(s: seq<byte>, p: nat, os: seq<Outcome>)
    requires p <= |s|
    decreases |os|
  {
    os == [] ||
    var t := Parse(s, p);
    t.outcome == os[0] && p <= t.used <= |s| && OutcomesOf(s, t.used, os[1..])
  }

  ghost predicate Follows(s: seq<byte>, os: seq<Outcome>, ends: seq<nat>) {
    && |ends| == |os| + 1 && ends[0] == 0
    && (forall i :: 0 <= i < |ends| ==> ends[i] <= |s|)
    && (forall i :: 0 <= i < |os| ==> ends[i] <= ends[i + 1] && Parse(s, ends[i]) == Turn(os[i], ends[i + 1]))
  }

  lemma FollowsOne(s: seq<byte>, os: seq<Outcome>, ends: seq<nat>, o: Outcome, p: nat)
    requires Follows(s, os, ends) && ends[|ends| - 1] <= p <= |s| && Parse(s, ends[|ends| - 1]) == Turn(o, p)
    ensures Follows(s, os + [o], ends + [p])
  {
    hide Parse;
  }

  lemma {:induction false} FollowsAll(s: seq<byte>, os: seq<Outcome>, ends: seq<nat>, i: nat)
    requires Follows(s, os, ends) && i <= |os|
    ensures OutcomesOf(s, ends[i], os[i..])
    decreases |os| - i
  {
    hide Parse;
    if i < |os| {
      FollowsAll(s, os, ends, i + 1);
      assert os[i..][1..] == os[i + 1..];
    }
  }

  /** A turn that ends uses up at least one character. */
  lemma {:induction false} Progress(s: seq<byte>, p: nat)
    requires p <= |s|
    ensures p <= Parse(s, p).used <= |s|
    ensures Parse(s, p).outcome != Starved ==> p < Parse(s, p).used
    decreases |s| - p
  {
    hide Check;
    if p < |s| && s[p] != SOH && s[p] != ETX {
      Progress(s, p + 1);
    } else if p < |s| && s[p] == SOH {
      HeaderProgress(s, p + 1);
    }
  }

  lemma HeaderProgress(s: seq<byte>, p: nat)
    requires p <= |s|
    ensures p <= Header(s, p).used <= |s|
  {
    hide Check, Body;
    if p + 3 <= |s| && !IsControl(s[p]) && !IsControl(s[p + 1]) && !IsControl(s[p + 2]) {
      var n, sum := Untochar(s[p + 1]), Sum3(s[p], s[p + 1], s[p + 2]);
      BodyProgress(s, p + 3, n, s[p + 2], Untochar(s[p]) - 2, sum, []);
      if p + 6 <= |s| {
        BodyProgress(s, p + 6, n, s[p + 2], Untochar(s[p + 3]) * 95 + Untochar(s[p + 4]),
                     sum + s[p + 3] + s[p + 4] + s[p + 5], []);
      }
    }
  }

  lemma {:induction false} BodyProgress(s: seq<byte>, p: nat, n: byte, kind: byte, length: int, sum: nat,
                                        data: seq<byte>)
    requires p <= |s|
    ensures p <= Body(s, p, n, kind, length, sum, data).used <= |s|
    decreases |s| - p
  {
    hide Check, Body;
    BodyStep(s, p, n, kind, length, sum, data);
    if p < |s| && !IsControl(s[p]) && length > 1 {
      BodyProgress(s, p + 1, n, kind, length - 1, sum + s[p], data + [s[p]]);
    }
  }
}

/** What the receiver keeps between packets, and what each outcome does to it. */
module KermitState {
  import opened KermitCode
  import opened KermitPacket
  import opened Options

  /** The memory from bin_start_address on, the write position in it, and a pending prefix. */
  datatype Data = Data(mem: seq<byte>, addr: nat, esc: bool)

  predicate InMem(d: Data) { d.addr <= |d.mem| }

  /** What has been received: the bytes below the write position. */
  function Content(d: Data): seq<byte>
    requires InMem(d)
  {
    d.mem[..d.addr]
  }

  /** `*os_data_addr++ = c` */
  function Write(d: Data, c: byte): Data
    requires InMem(d)
  {
    Data(if d.addr < |d.mem| then d.mem[d.addr := c] else d.mem + [c], d.addr + 1, d.esc)
  }

  /** k_data_char */
  function DataChar(d: Data, quote: byte, c: byte): (r: Data)
    requires InMem(d)
    ensures InMem(r)
  {
    if d.esc then Write(d, Ktrans(c)).(esc := false)
    else if c == quote then d.(esc := true)
    else Write(d, c)
  }

  function DataChars(d: Data, quote: byte, s: seq<byte>): (r: Data)
    requires InMem(d)
    ensures InMem(r)
  {
    if s == [] then d else DataChar(DataChars(d, quote, s[..|s| - 1]), quote, s[|s| - 1])
  }

  /** Feeding data appends what it decodes to, and rewrites nothing below. */
  lemma {:induction false} DataCharsDecode(d: Data, quote: byte, s: seq<byte>)
    requires InMem(d)
    ensures var (out, p) := Decode(d.esc, quote, s);
            var r := DataChars(d, quote, s);
            && r.addr == d.addr + |out| && r.esc == p
            && Content(r) == Content(d) + out
            && |r.mem| >= |d.mem| && r.mem[..d.addr] == d.mem[..d.addr]
  {
    if s == [] {
      assert Content(d) + [] == Content(d);
    } else {
      var front, c := s[..|s| - 1], s[|s| - 1];
      DataCharsDecode(d, quote, front);
      OneCharDecodes(d, DataChars(d, quote, front), Decode(d.esc, quote, front).0, quote, c);
    }
  }

  lemma OneCharDecodes(d: Data, f: Data, out: seq<byte>, quote: byte, c: byte)
    requires InMem(d) && InMem(f) && f.addr == d.addr + |out| && Content(f) == Content(d) + out
    requires |f.mem| >= |d.mem| && f.mem[..d.addr] == d.mem[..d.addr]
    ensures var (out', p') := Feed((out, f.esc), quote, c);
            var r := DataChar(f, quote, c);
            && r.addr == d.addr + |out'| && r.esc == p'
            && Content(r) == Content(d) + out'
            && |r.mem| >= |d.mem| && r.mem[..d.addr] == d.mem[..d.addr]
  {
    hide Ktrans;
    var r := DataChar(f, quote, c);
    if f.esc || c != quote {
      var b := if f.esc then Ktrans(c) else c;
      assert Content(r) == Content(f) + [b];
      assert Content(d) + out + [b] == Content(d) + (out + [b]);
      assert r.mem[..d.addr] == f.mem[..d.addr];
    }
  }

  // ---- the receiver ----

  datatype Rx = Rx(data: Data, savedAddr: nat, savedEsc: bool, lastN: int, n: byte,
                   quote: byte, eol: byte, padCount: nat, padChar: byte)

  predicate OkRx(rx: Rx) { InMem(rx.data) && rx.savedAddr <= rx.data.addr }

  const START: Rx := Rx(Data([], 0, false), 0, false, -1, 0, K_ESCAPE, CR, 0, 0)

  function Restore(rx: Rx): Rx { rx.(data := rx.data.(addr := rx.savedAddr, esc := rx.savedEsc)) }

  /** A repeated sequence number goes back to the checkpoint, a new one makes one. */
  function Begin(rx: Rx, n: byte): Rx {
    if n == rx.lastN then Restore(rx).(n := n)
    else rx.(n := n, lastN := n, savedAddr := rx.data.addr, savedEsc := rx.data.esc)
  }

  /** Only data packets touch memory. */
  function Fed(rx: Rx, kind: Option<byte>, s: seq<byte>): (r: Rx)
    requires OkRx(rx)
    ensures InMem(r.data)
  {
    if kind == Some(DATA_TYPE) then rx.(data := DataChars(rx.data, rx.quote, s)) else rx
  }

  /** How many send parameters handle_send_packet looks at. */
  function Params(s: seq<byte>): (r: nat)
    ensures r <= |s|
  {
    if |s| < 19 then |s| else 18
  }

  /** What a send-initiate packet tells about the sender. */
  function Negotiated(rx: Rx, s: seq<byte>): Rx {
    var b := Params(s);
    rx.(padCount := if b >= 3 then Untochar(s[2]) else 0,
        padChar := if b >= 4 then Ktrans(s[3]) else 0,
        eol := if b >= 5 then Untochar(s[4]) else CR,
        quote := if b >= 6 then s[5] else K_ESCAPE)
  }

  /** The state when the packet's last character has been taken. */
  function Taken(rx: Rx, o: Outcome): (r: Rx)
    requires OkRx(rx)
    ensures InMem(r.data)
  {
    match o
    case BodyError(n, kind, s) => Fed(Begin(rx, n), kind, s)
    case Accepted(n, kind, s) => Fed(Begin(rx, n), kind, s)
    case _ => rx
  }

  /** The state for the next turn. */
  function Apply(rx: Rx, o: Outcome): Rx
    requires OkRx(rx)
  {
    match o
    case Starved => rx
    case Cancelled => rx
    case HeaderError => Restore(rx)
    case BodyError(n, kind, s) => Restore(Taken(rx, o))
    case Accepted(n, kind, s) => if kind == Some(SEND_TYPE) then Negotiated(Taken(rx, o), s) else Taken(rx, o)
  }

  /** Every turn keeps the receiver ok and never rewrites a byte below the checkpoint. */
  lemma ApplyKeeps(rx: Rx, o: Outcome)
    requires OkRx(rx)
    ensures OkRx(Apply(rx, o))
    ensures var r := Apply(rx, o);
            && r.savedAddr <= |rx.data.mem| <= |r.data.mem|
            && r.data.mem[..r.savedAddr] == rx.data.mem[..r.savedAddr]
  {
    hide DataChars, Decode, Ktrans;
    match o {
      case BodyError(n, kind, s) => FedKeeps(Begin(rx, n), kind, s);
      case Accepted(n, kind, s) => FedKeeps(Begin(rx, n), kind, s);
      case _ =>
    }
  }

  lemma FedKeeps(rx: Rx, kind: Option<byte>, s: seq<byte>)
    requires OkRx(rx)
    ensures OkRx(Fed(rx, kind, s))
    ensures |Fed(rx, kind, s).data.mem| >= |rx.data.mem|
    ensures Fed(rx, kind, s).data.mem[..rx.savedAddr] == rx.data.mem[..rx.savedAddr]
  {
    hide DataChars, Decode;
    DataCharsDecode(rx.data, rx.quote, s);
    var m := Fed(rx, kind, s).data.mem;
    assert m[..rx.savedAddr] == m[..rx.data.addr][..rx.savedAddr];
    assert rx.data.mem[..rx.savedAddr] == rx.data.mem[..rx.data.addr][..rx.savedAddr];
  }

  // ---- what goes back to the sender ----

  /** A reply on the line: the NUL that ends the buffer also swallows an end of line of 0. */
  function Wire(core: seq<byte>, eol: byte): seq<byte> {
    [SOH] + core + [Check(Sum(core))] + (if eol == 0 then [] else [eol])
  }

  function Pads(count: nat, c: byte): seq<byte> {
    if count == 0 then [] else [c] + Pads(count - 1, c)
  }

  function ShortReply(n: byte, kind: byte): seq<byte> { [Tochar(3), Tochar(n), kind] }

  /** Everything the receiver can offer, in the order of the parameters. */
  const OFFER: seq<byte> :=
    [Tochar(94), Tochar(1), Tochar(0), 64, Tochar(CR), 35, 78, 49, 78, Tochar(2), Tochar(0), Tochar(94), Tochar(94)]

  /** One field for each parameter received; the last parameter brings four. */
  function Offered(s: seq<byte>): (r: seq<byte>)
    ensures |r| <= 13
  {
    if Params(s) >= 10 then OFFER else OFFER[..Params(s)]
  }

  function ParamReply(n: byte, s: seq<byte>): seq<byte> {
    [Tochar(3 + |Offered(s)|), Tochar(n), ACK_TYPE] + Offered(s)
  }

  /** The bytes sent at the end of a turn that left the receiver in state rx. */
  function Reply(rx: Rx, o: Outcome): seq<byte> {
    match o
    case Starved => []
    case Cancelled => []
    case HeaderError => Pads(rx.padCount, rx.padChar) + Wire(ShortReply(rx.n, NACK_TYPE), rx.eol)
    case BodyError(n, _, _) => Pads(rx.padCount, rx.padChar) + Wire(ShortReply(n, NACK_TYPE), rx.eol)
    case Accepted(n, kind, s) =>
      Pads(rx.padCount, rx.padChar)
      + Wire(if kind == Some(SEND_TYPE) then ParamReply(n, s) else ShortReply(n, ACK_TYPE), rx.eol)
  }
}

/** The log buffer: an overwriting ring in two layouts, and logbuff_printk writing to it. */
module LogRing {
  import opened LogStream
  import opened Rings
  import opened Numbers

  /** unsigned long */
  const WORD: nat := 0x1_0000_0000

  function Wrap(a: int): (r: nat)
    ensures r < WORD
  {
    a % WORD
  }

  const NUL: char := '\0'

  /** Wrapping at 2^32 does not move a slot of a ring whose length divides 2^32. */
  lemma WordSlot(len: nat, a: nat)
    requires len > 0 && WORD % len == 0
    ensures Slot(Wrap(a), len) == Slot(a, len)
  {
    var q, k := a / WORD, WORD / len;
    assert WORD == k * len;
    assert a == Wrap(a) + q * (k * len);
    Regroup(q, k, len);
    ModShift(Wrap(a), len, q * k);
  }

  lemma Regroup(a: nat, b: nat, c: nat)
    ensures a * (b * c) == a * b * c && a * b >= 0
  {
  }

  class LogBuffer {
    const len: nat                  // LOGBUFF_LEN
    const version: int
    const lbuf: array<char>
    var start: nat
    var size: nat                   // version 1
    var end: nat                    // version 2
    var chars: nat
    var msgLevel: int
    const buf: array<char>

    ghost predicate Valid()
      reads `start, `size, `end, `chars, `msgLevel
    {
      && -1 <= msgLevel <= 7 && chars < WORD
      && 0 < len <= WORD / 2 && WORD % len == 0
      && lbuf.Length == len && buf.Length == 1024 && lbuf != buf
      && start < WORD && end < WORD && Count() <= len
    }

    function Count(): nat
      reads `start, `size, `end
    {
      if version == 2 then Wrap(end - start) else size
    }

    ghost function Content(): string
      requires lbuf.Length > 0
      reads lbuf, `start, `size, `end
    {
      Ring(lbuf[..], start, Count())
    }

    constructor (len: nat, version: int)
      requires 0 < len <= WORD / 2 && WORD % len == 0
      ensures Valid() && Content() == "" && msgLevel == -1 && chars == 0
      ensures this.len == len && this.version == version
    {
      this.len, this.version := len, version;
      lbuf, buf := new char[len](_ => NUL), new char[1024](_ => NUL);
      start, size, end, chars, msgLevel := 0, 0, 0, 0, -1;
    }

    /** logbuff_reset */
    method Reset()
      requires Valid()
      modifies `start, `size, `end, `chars
      ensures Valid() && Content() == "" && chars == 0
    {
      start, size, end, chars := 0, 0, 0, 0;
    }

    /** One character, in the layout of the log version. */
    method PutChar(c: char)
      requires Valid()
      modifies lbuf, `start, `size, `end, `chars
      ensures Valid() && Content() == Last(old(Content()) + [c], len)
      ensures chars == Wrap(old(chars) + 1)
      ensures chars == if old(chars) == 0xFFFF_FFFF then 0 else old(chars) + 1
    {
      hide Ring, Last, Slot, Wrap;
      NextCount(chars);
      ghost var l, s, n := lbuf[..], start, Count();
      RingPush(l, s, n, c);
      WordSlot(len, s + 1);
      if version == 2 {
        WordSlot(len, s + n);
        EndSlot(s, end, n);
        lbuf[Slot(end, len)] := c;
        end := Wrap(end + 1);
        if Wrap(end - start) > len {
          start := Wrap(start + 1);
        }
      } else {
        WordSlot(len, s + n);
        lbuf[Slot(Wrap(start + size), len)] := c;
        if size < len {
          size := size + 1;
        } else {
          start := Wrap(start + 1);
        }
      }
      assert lbuf[..] == l[Slot(s + n, len) := c];
      if n == len { RingStart(lbuf[..], s + 1, start, n); }
      chars := Wrap(chars + 1);
    }

    /** The inner loop of logbuff_printk: the characters up to the end of the line or of the
        message go to the ring. */
    method PutLine(from: nat, bufEnd: nat) returns (p: nat, lineFeed: bool, ghost added: string)
      requires Valid() && from < bufEnd < 1024
      modifies lbuf, `start, `size, `end, `chars
      ensures Valid() && Content() == Last(old(Content()) + added, len)
      ensures from <= p <= bufEnd && (lineFeed ==> p < bufEnd && buf[p] == '\n') && (!lineFeed ==> p == bufEnd)
      ensures chars == Wrap(old(chars) + |added|)
      ensures Rest(buf[..], from, bufEnd) != ""
      ensures var rest := Rest(buf[..], from, bufEnd); var left := Rest(buf[..], p + 1, bufEnd);
              && added + Out(lineFeed, left) == Out(false, rest)
              && BeginsAfter(lineFeed, left) == BeginsAfter(false, rest)
    {
      hide Ring, Last, Out, BeginsAfter, Valid, Rest, Wrap;
      ValidIs();
      ghost var c0, all := Content(), Rest(buf[..], from, bufEnd);
      p, lineFeed, added := from, false, "";
      LastNone(c0, len);
      CountMore(chars, 0);
      RestStep(buf[..], from, bufEnd);
      Glue("", Out(false, all));
      while p < bufEnd
        invariant Valid() && from <= p <= bufEnd && !lineFeed
        invariant Content() == Last(c0 + added, len) && chars == Wrap(old(chars) + |added|)
        invariant added + Out(false, Rest(buf[..], p, bufEnd)) == Out(false, all)
        invariant BeginsAfter(false, Rest(buf[..], p, bufEnd)) == BeginsAfter(false, all)
      {
        var c := buf[p];
        RestStep(buf[..], p, bufEnd);
        OutStep(c, Rest(buf[..], p + 1, bufEnd), added);
        PutChar(c);
        ValidIs();
        LastMore(c0, added, c, len);
        CountMore(old(chars), |added|);
        added := added + [c];
        if c == '\n' {
          lineFeed := true;
          break;
        }
        p := p + 1;
      }
      RestNone(buf[..], bufEnd, bufEnd);
      RestNone(buf[..], bufEnd + 1, bufEnd);
    }

    lemma ValidIs()
      requires Valid()
      ensures 0 < len && lbuf.Length == len && buf.Length == 1024 && lbuf != buf && |Content()| <= len && chars < WORD
    {
    }

    /** At the start of a line: puts the default tag in front unless the text brings its own. */
    method SetLevel(at: nat, bufEnd: nat) returns (p: nat)
      requires Valid() && 3 <= at < bufEnd < 1024 && buf[bufEnd] == NUL && NUL !in Rest(buf[..], at, bufEnd)
      modifies buf, `msgLevel
      ensures Valid() && msgLevel >= 0 && p <= at && buf[bufEnd] == NUL
      ensures Rest(buf[..], at, bufEnd) == old(Rest(buf[..], at, bufEnd))
      ensures Out(false, Rest(buf[..], p, bufEnd)) == old(Out(msgLevel < 0, Rest(buf[..], at, bufEnd)))
      ensures BeginsAfter(false, Rest(buf[..], p, bufEnd)) == old(BeginsAfter(msgLevel < 0, Rest(buf[..], at, bufEnd)))
      ensures forall q :: p <= q < at ==> buf[q] != '\n'
    {
      hide Out, BeginsAfter, Tagged, Count, Rest;
      p := at;
      ghost var b, s := buf[..], Rest(buf[..], at, bufEnd);
      OutDefault(s);
      TagSeen(b, at, bufEnd);
      BeginsDefault(s);
      if msgLevel < 0 {
        if buf[p] != '<' || buf[p + 1] < '0' || buf[p + 1] > '7' || buf[p + 2] != '>' {
          p := p - 3;
          buf[p], buf[p + 1], buf[p + 2] := '<', '4', '>';
          PrefixSeen(b, buf[..], at, bufEnd);
        }
        msgLevel := buf[p + 1] as int - '0' as int;
      }
    }

    /** logbuff_printk: the ring is as if the message's stream had been written to it. */
    method Printk(line: string) returns (i: nat)
      requires Valid() && |line| <= 1020 && NUL !in line
      modifies lbuf, buf, `start, `size, `end, `chars, `msgLevel
      ensures Valid() && i == |line|
      ensures Content() == Last(old(Content()) + Out(old(msgLevel) < 0, line), len)
      ensures chars == Wrap(old(chars) + |Out(old(msgLevel) < 0, line)|)
      ensures msgLevel < 0 <==> BeginsAfter(old(msgLevel) < 0, line)
    {
      hide Ring, Last, Out, Tagged, BeginsAfter, Count, Rest, Wrap;
      ValidIs();
      ghost var c0, b0, done := Content(), msgLevel < 0, "";
      CopyLine(line);
      i := |line|;
      var bufEnd := 3 + i;
      LastNone(c0, len);
      Glue("", Out(b0, line));
      RestAll(buf[..], 3, bufEnd, line);
      CountMore(old(chars), 0);
      var p := 3;
      while p < bufEnd
        invariant 3 <= p <= bufEnd + 1 && bufEnd <= 1023 && buf[bufEnd] == NUL && Valid()
        invariant Content() == Last(c0 + done, len) && chars == Wrap(old(chars) + |done|)
        invariant NUL !in Rest(buf[..], p, bufEnd)
        invariant done + Out(msgLevel < 0, Rest(buf[..], p, bufEnd)) == Out(b0, line)
        invariant BeginsAfter(msgLevel < 0, Rest(buf[..], p, bufEnd)) == BeginsAfter(b0, line)
        decreases bufEnd + 1 - p
      {
        ghost var at, c1 := p, Content();
        p := SetLevel(p, bufEnd);
        var lineFeed;
        ghost var added;
        p, lineFeed, added := PutLine(p, bufEnd);
        ValidIs();
        RestTail(buf[..], at, p + 1, bufEnd);
        LastAppend(c0 + done, added, len);
        Assoc(c0, done, added);
        Assoc(done, added, Out(lineFeed, Rest(buf[..], p + 1, bufEnd)));
        CountPlus(old(chars), |done|, |added|);
        if lineFeed { msgLevel := -1; }
        p := p + 1;
        done := done + added;
      }
      RestNone(buf[..], p, bufEnd);
      OutNone(msgLevel < 0, done);
    }

    /** `log append`: the arguments with blanks between them and a line feed at the end. */
    method Append(args: seq<string>)
      requires Valid() && forall a :: a in args ==> |a| <= 1020 && NUL !in a
      modifies lbuf, buf, `start, `size, `end, `chars, `msgLevel
      ensures Valid()
      ensures Content() == Last(old(Content()) + Stream(old(msgLevel) < 0, Pieces(args)), len)
      ensures args != [] ==> msgLevel < 0
    {
      hide Ring, Last, Out, BeginsAfter, Count, Stream, Pieces;
      ValidIs();
      ghost var c0, b0, done := Content(), msgLevel < 0, "";
      LastNone(c0, len);
      Glue("", Stream(b0, Pieces(args)));
      assert args[0..] == args;
      var i := 0;
      while i < |args|
        invariant i <= |args| && Valid()
        invariant Content() == Last(c0 + done, len)
        invariant done + Stream(msgLevel < 0, Pieces(args[i..])) == Stream(b0, Pieces(args))
        invariant i == |args| && i > 0 ==> msgLevel < 0
      {
        ghost var b := msgLevel < 0;
        var mark: char := if i < |args| - 1 then ' ' else '\n';
        PiecesStep(b, args, i, mark, done);
        PrintWithMark(args[i], mark);
        ghost var x, y := Out(b, args[i]), Out(BeginsAfter(b, args[i]), [mark]);
        LastAppend(c0 + done, x + y, len);
        Regrouped(c0, done, x, y);
        done := done + x + y;
        i := i + 1;
      }
      assert args[|args|..] == [];
      StreamNone(msgLevel < 0, done);
    }

    /** One argument and the character behind it. */
    method PrintWithMark(arg: string, mark: char)
      requires Valid() && |arg| <= 1020 && NUL !in arg && mark != NUL
      modifies lbuf, buf, `start, `size, `end, `chars, `msgLevel
      ensures Valid() && (mark == '\n' ==> msgLevel < 0)
      ensures var b := old(msgLevel) < 0;
              var b' := BeginsAfter(b, arg);
              && Content() == Last(old(Content()) + (Out(b, arg) + Out(b', [mark])), len)
              && (msgLevel < 0 <==> BeginsAfter(b', [mark]))
    {
      hide Ring, Last, Out, BeginsAfter, Count;
      ghost var c0, b := Content(), msgLevel < 0;
      var n := Printk(arg);
      ghost var x, y := Out(b, arg), Out(msgLevel < 0, [mark]);
      n := Printk([mark]);
      LastAppend(c0 + x, y, len);
      MarkEnds(mark);
      Assoc(c0, x, y);
    }

    method CopyLine(line: string)
      requires buf.Length == 1024 && |line| <= 1020
      modifies buf
      ensures buf[3..3 + |line|] == line && buf[3 + |line|] == NUL
    {
      var k := 0;
      while k < |line|
        invariant k <= |line| && forall j :: 0 <= j < k ==> buf[3 + j] == line[j]
      {
        buf[3 + k] := line[k];
        k := k + 1;
      }
      buf[3 + k] := NUL;
    }
  }

  /** Any run of messages: one call after the other leaves the last characters of the stream. */
  lemma {:induction false} RunHolds(contents: seq<string>, begins: seq<bool>, msgs: seq<string>, len: nat)
    requires |contents| == |begins| == |msgs| + 1 && |contents[0]| <= len
    requires forall i :: 0 <= i < |msgs| ==>
               contents[i + 1] == Last(contents[i] + Out(begins[i], msgs[i]), len)
                 && begins[i + 1] == BeginsAfter(begins[i], msgs[i])
    ensures contents[|msgs|] == Last(contents[0] + Stream(begins[0], msgs), len)
    decreases |msgs|
  {
    hide Out, BeginsAfter;
    if msgs == [] {
      LastNone(contents[0], len);
    } else {
      var rest := Stream(begins[1], msgs[1..]);
      RunHolds(contents[1..], begins[1..], msgs[1..], len);
      LastAppend(contents[0] + Out(begins[0], msgs[0]), rest, len);
      Assoc(contents[0], Out(begins[0], msgs[0]), rest);
    }
  }

  /** The messages of `log append`. */
  function Pieces(args: seq<string>): seq<string>
    decreases |args|
  {
    if args == [] then [] else [args[0], if |args| > 1 then " " else "\n"] + Pieces(args[1..])
  }

  /** Counters are words of 32 bits. */
  lemma NextCount(n: nat)
    requires n < WORD
    ensures Wrap(n + 1) == if n == 0xFFFF_FFFF then 0 else n + 1
  {
  }

  lemma PiecesStep(b: bool, args: seq<string>, i: nat, mark: char, done: string)
    requires i < |args| && mark == if i < |args| - 1 then ' ' else '\n'
    ensures var b' := BeginsAfter(b, args[i]);
            done + Stream(b, Pieces(args[i..])) ==
            done + Out(b, args[i]) + Out(b', [mark]) + Stream(BeginsAfter(b', [mark]), Pieces(args[i + 1..]))
  {
    hide Out, BeginsAfter;
    var ps, rest := Pieces(args[i..]), Pieces(args[i + 1..]);
    assert args[i..][1..] == args[i + 1..];
    assert ps == [args[i], [mark]] + rest;
    assert ps[1..] == [[mark]] + rest && ps[1..][1..] == rest;
    var b' := BeginsAfter(b, args[i]);
    var x, y, z := Out(b, args[i]), Out(b', [mark]), Stream(BeginsAfter(b', [mark]), rest);
    assert Stream(b, ps) == x + (y + z);
    assert done + (x + (y + z)) == done + x + y + z;
  }

  lemma StreamNone(b: bool, d: string)
    ensures d + Stream(b, Pieces([])) == d
  {
  }

  lemma Regrouped(c: string, d: string, x: string, y: string)
    ensures c + d + (x + y) == c + (d + x + y)
  {
  }

  lemma MarkEnds(mark: char)
    ensures forall b :: BeginsAfter(b, [mark]) == (mark == '\n')
  {
  }

  /** The characters of the buffer from p up to e. */
  function Rest(s: string, p: nat, e: nat): string
    requires e <= |s|
  {
    if p < e then s[p..e] else ""
  }

  lemma RestStep(s: string, p: nat, e: nat)
    requires p < e <= |s|
    ensures Rest(s, p, e) == [s[p]] + Rest(s, p + 1, e)
  {
  }

  lemma RestNone(s: string, p: nat, e: nat)
    requires p >= e && e <= |s|
    ensures Rest(s, p, e) == ""
  {
  }

  lemma RestAll(s: string, p: nat, e: nat, line: string)
    requires p <= e <= |s| && s[p..e] == line
    ensures Rest(s, p, e) == line
  {
  }

  /** The test for a tag, which may look at the NUL but not behind it. */
  lemma TagSeen(b: string, at: nat, e: nat)
    requires at < e < |b| == 1024 && b[e] == NUL && NUL !in Rest(b, at, e)
    ensures Rest(b, at, e) != ""
    ensures '0' <= b[at + 1] ==> at + 2 < 1024
    ensures Tagged(Rest(b, at, e)) <==> b[at] == '<' && '0' <= b[at + 1] <= '7' && b[at + 2] == '>'
  {
    var s := b[at..e];
    assert forall j :: 0 <= j < |s| ==> s[j] == b[at + j];
  }

  lemma PrefixSeen(b: string, b': string, at: nat, e: nat)
    requires 3 <= at < e < |b| && b' == b[at - 3 := '<'][at - 2 := '4'][at - 1 := '>']
    ensures Rest(b', at, e) == Rest(b, at, e) && Rest(b', at - 3, e) == DEFAULT + Rest(b, at, e)
  {
    assert b'[at - 3..e] == DEFAULT + b[at..e];
    assert b'[at..e] == b[at..e];
  }

  lemma RestTail(s: string, p: nat, q: nat, e: nat)
    requires p < q && e <= |s|
    ensures forall c :: c in Rest(s, q, e) ==> c in Rest(s, p, e)
  {
    if q < e { assert s[q..e] == s[p..e][q - p..]; }
  }

  lemma Assoc(a: string, b: string, c: string)
    ensures a + (b + c) == a + b + c
  {
  }

  lemma WrapIsSlot(a: nat)
    ensures Wrap(a) == Slot(a, WORD)
  {
  }

  lemma CountPlus(chars: nat, n: nat, m: nat)
    ensures Wrap(Wrap(chars + n) + m) == Wrap(chars + (n + m))
  {
    hide Slot;
    SlotAdd(WORD, chars + n, m);
    WrapIsSlot(chars + n);
    WrapIsSlot(chars + n + m);
    WrapIsSlot(Wrap(chars + n) + m);
  }

  lemma OutNone(begins: bool, done: string)
    ensures done + Out(begins, "") == done && BeginsAfter(begins, "") == begins
  {
  }

  lemma OutCons(c: char, left: string)
    ensures Out(false, [c] + left) == [c] + Out(c == '\n', left)
  {
    assert ([c] + left)[1..] == left;
  }

  lemma BeginsDefault(s: string)
    requires s != ""
    ensures BeginsAfter(true, s) == BeginsAfter(false, s) == BeginsAfter(false, DEFAULT + s)
  {
  }

  lemma OutFirst(begins: bool, s: string)
    requires s != ""
    ensures Out(begins, s) == Prefix(begins, s) + ([s[0]] + Out(s[0] == '\n', s[1..]))
  {
  }

  lemma Four(a: char, b: char, c: char, s: string)
    ensures [a] + ([b] + ([c] + s)) == [a, b, c] + s
  {
  }

  lemma OutDefault(s: string)
    ensures s != "" ==> Out(true, s) == Out(false, if Tagged(s) then s else DEFAULT + s)
  {
    hide Out, Tagged;
    if s != "" {
      OutFirst(true, s);
      OutFirst(false, s);
    }
    if s != "" && !Tagged(s) {
      var t := DEFAULT + s;
      OutCons('<', "4>" + s);
      OutCons('4', ">" + s);
      OutCons('>', s);
      assert t == ['<'] + ("4>" + s) && "4>" + s == ['4'] + (">" + s) && ">" + s == ['>'] + s;
      Four('<', '4', '>', Out(false, s));
    }
  }

  lemma OutStep(c: char, left: string, added: string)
    ensures added + Out(false, [c] + left) == added + [c] + Out(c == '\n', left)
    ensures BeginsAfter(false, [c] + left) == BeginsAfter(c == '\n', left)
  {
    assert ([c] + left)[1..] == left;
    assert Out(false, [c] + left) == "" + [c] + Out(c == '\n', left);
    assert added + ([c] + Out(c == '\n', left)) == added + [c] + Out(c == '\n', left);
  }

  lemma Glue(a: string, b: string)
    requires a == ""
    ensures a + b == b
  {
  }

  lemma CountMore(chars: nat, n: nat)
    ensures Wrap(Wrap(chars + n) + 1) == Wrap(chars + (n + 1))
    ensures n == 0 && chars < WORD ==> chars == Wrap(chars + n)
  {
    CountPlus(chars, n, 1);
  }

  lemma WrapIs(a: int)
    ensures 0 <= a < WORD ==> Wrap(a) == a
    ensures WORD <= a < 2 * WORD ==> Wrap(a) == a - WORD
    ensures a < 0 <= a + WORD ==> Wrap(a) == a + WORD
  {
  }

  lemma EndSlot(start: nat, end: nat, n: nat)
    requires start < WORD && end < WORD && n == Wrap(end - start) && n + 1 < WORD
    ensures Wrap(start + n) == end
    ensures Wrap(Wrap(end + 1) - start) == n + 1
    ensures Wrap(Wrap(end + 1) - Wrap(start + 1)) == n
  {
    hide Wrap;
    WrapIs(end - start);
    WrapIs(start + n);
    WrapIs(end + 1);
    WrapIs(start + 1);
    WrapIs(Wrap(end + 1) - start);
    WrapIs(Wrap(end + 1) - Wrap(start + 1));
  }
}

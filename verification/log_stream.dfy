/** The character stream that the messages of the log stand for: a level tag in front of
    every line that does not bring its own. */
module LogStream {

  /** `<0>` to `<7>` */
  predicate Tagged(s: string) { |s| >= 3 && s[0] == '<' && '0' <= s[1] <= '7' && s[2] == '>' }

  /** The tag of the default level. */
  const DEFAULT: string := "<4>"

  function Prefix(begins: bool, s: string): string { if begins && !Tagged(s) then DEFAULT else "" }

  /** What one message adds to the log; `begins` when it starts a line. */
  function Out(begins: bool, s: string): string
    decreases |s|
  {
    if s == "" then "" else Prefix(begins, s) + [s[0]] + Out(s[0] == '\n', s[1..])
  }

  /** Whether the next message starts a line. */
  function BeginsAfter(begins: bool, s: string): bool { if s == "" then begins else s[|s| - 1] == '\n' }

  /** A run of messages. */
  function Stream(begins: bool, msgs: seq<string>): string
    decreases |msgs|
  {
    if msgs == [] then "" else Out(begins, msgs[0]) + Stream(BeginsAfter(begins, msgs[0]), msgs[1..])
  }

  function Concat(msgs: seq<string>): string
    decreases |msgs|
  {
    if msgs == [] then "" else msgs[0] + Concat(msgs[1..])
  }

  // ---- every line has its tag ----

  predicate LineStart(begins: bool, s: string, i: int) {
    0 <= i < |s| && (if i == 0 then begins else s[i - 1] == '\n')
  }

  /** Every line that starts in s starts with a tag. */
  ghost predicate AllTagged(begins: bool, s: string) {
    forall i :: LineStart(begins, s, i) ==> Tagged(s[i..])
  }

  lemma TaggedAppend(a: string, b: string)
    requires Tagged(a)
    ensures Tagged(a + b)
  {
  }

  lemma AllTaggedAppend(begins: bool, a: string, b: string)
    requires AllTagged(begins, a) && AllTagged(BeginsAfter(begins, a), b)
    ensures AllTagged(begins, a + b)
  {
    hide Tagged;
    forall i | LineStart(begins, a + b, i) ensures Tagged((a + b)[i..]) {
      if i < |a| {
        assert LineStart(begins, a, i);
        assert (a + b)[i..] == a[i..] + b;
        TaggedAppend(a[i..], b);
      } else {
        assert LineStart(BeginsAfter(begins, a), b, i - |a|);
        Suffix(a, b, i);
      }
    }
  }

  /** What follows a, seen from behind it. */
  lemma Suffix(a: string, b: string, i: nat)
    requires |a| <= i <= |a + b|
    ensures (a + b)[i..] == b[i - |a|..]
  {
  }

  /** Behind the start of a head of one line, lines start in the rest only. */
  lemma StartsInRest(begins: bool, head: string, rest: string, i: nat)
    requires head != "" && forall i :: 0 <= i < |head| - 1 ==> head[i] != '\n'
    requires i > 0 && LineStart(begins, head + rest, i)
    ensures |head| <= i < |head + rest| && LineStart(head[|head| - 1] == '\n', rest, i - |head|)
  {
    if i <= |head| {
      assert (head + rest)[i - 1] == head[i - 1];
    } else {
      assert (head + rest)[i - 1] == rest[i - 1 - |head|];
    }
  }

  /** A head of one line in front of tagged lines. */
  lemma HeadTagged(begins: bool, head: string, rest: string)
    requires head != "" && forall i :: 0 <= i < |head| - 1 ==> head[i] != '\n'
    requires begins ==> Tagged(head + rest)
    requires AllTagged(head[|head| - 1] == '\n', rest)
    ensures AllTagged(begins, head + rest)
  {
    hide Tagged;
    forall i | LineStart(begins, head + rest, i) ensures Tagged((head + rest)[i..]) {
      if i == 0 {
        assert (head + rest)[0..] == head + rest;
      } else {
        StartsInRest(begins, head, rest, i);
        Suffix(head, rest, i);
      }
    }
  }

  lemma {:induction false} OutTagged(begins: bool, s: string)
    ensures AllTagged(begins, Out(begins, s))
    ensures BeginsAfter(begins, Out(begins, s)) == BeginsAfter(begins, s)
    decreases |s|
  {
    if s != "" {
      var head, rest := Prefix(begins, s) + [s[0]], Out(s[0] == '\n', s[1..]);
      OutTagged(s[0] == '\n', s[1..]);
      OutEmpty(s[0] == '\n', s[1..]);
      if begins { FirstTag(s); }
      HeadTagged(begins, head, rest);
    }
  }

  lemma OutEmpty(begins: bool, s: string)
    ensures Out(begins, s) == "" <==> s == ""
  {
  }

  lemma FirstTag(s: string)
    requires s != ""
    ensures Tagged(Out(true, s))
  {
    if Tagged(s) {
      assert s[1..][1..] == s[2..];
      assert Out(false, s[1..]) == "" + [s[1]] + Out(false, s[2..]);
      assert Out(false, s[2..]) == "" + [s[2]] + Out(s[2] == '\n', s[2..][1..]);
    }
  }

  /** Whatever the messages and however they are cut: every line of the log starts with a tag. */
  lemma {:induction false} StreamTagged(begins: bool, msgs: seq<string>)
    ensures AllTagged(begins, Stream(begins, msgs))
    decreases |msgs|
  {
    if msgs != [] {
      OutTagged(begins, msgs[0]);
      StreamTagged(BeginsAfter(begins, msgs[0]), msgs[1..]);
      AllTaggedAppend(begins, Out(begins, msgs[0]), Stream(BeginsAfter(begins, msgs[0]), msgs[1..]));
    }
  }

  // ---- how the text is cut into messages ----

  predicate CutAt(begins: bool, a: string, b: string, i: int) {
    LineStart(begins, a, i) && Tagged(a[i..] + b)
  }

  /** The cut between a and b falls inside a tag at the start of a line. */
  predicate CutsTag(begins: bool, a: string, b: string) {
    CutAt(begins, a, b, |a| - 1) || CutAt(begins, a, b, |a| - 2)
  }

  lemma CutBehind(begins: bool, a: string, b: string, i: int)
    requires a != "" && i > 0
    ensures CutAt(begins, a, b, i) <==> CutAt(a[0] == '\n', a[1..], b, i - 1)
  {
    if i < |a| {
      assert a[i..] == a[1..][i - 1..];
      assert i > 1 ==> a[1..][i - 2] == a[i - 1];
    }
  }

  /** One cut: both halves give what the whole gives, plus a tag when the cut cuts one. */
  lemma {:induction false} OutCut(begins: bool, a: string, b: string)
    ensures |Out(begins, a)| + |Out(BeginsAfter(begins, a), b)| == |Out(begins, a + b)|
            + (if CutsTag(begins, a, b) then 3 else 0)
    ensures !CutsTag(begins, a, b) ==> Out(begins, a) + Out(BeginsAfter(begins, a), b) == Out(begins, a + b)
    decreases |a|
  {
    hide Tagged, CutsTag;
    if a == "" {
      assert a + b == b;
      NoCut(begins, b);
    } else {
      var tail := a[1..];
      assert (a + b)[1..] == tail + b && (a + b)[0] == a[0];
      OutCut(a[0] == '\n', tail, b);
      PrefixCut(begins, a, b);
      AfterTail(begins, a);
      var c, x, y := [a[0]], Out(a[0] == '\n', tail), Out(BeginsAfter(begins, a), b);
      assert Prefix(begins, a) + c + x + y == Prefix(begins, a) + c + (x + y);
    }
  }

  lemma NoCut(begins: bool, b: string)
    ensures !CutsTag(begins, "", b)
  {
  }

  lemma AfterTail(begins: bool, a: string)
    requires a != ""
    ensures BeginsAfter(begins, a) == BeginsAfter(a[0] == '\n', a[1..])
  {
  }

  /** The prefixes at the start of the text, with and without what follows the cut. */
  lemma PrefixCut(begins: bool, a: string, b: string)
    requires a != ""
    ensures var tail := a[1..];
            && (CutsTag(a[0] == '\n', tail, b) ==> CutsTag(begins, a, b) && Prefix(begins, a) == Prefix(begins, a + b))
            && (!CutsTag(begins, a, b) ==> Prefix(begins, a) == Prefix(begins, a + b))
            && (CutsTag(begins, a, b) && !CutsTag(a[0] == '\n', tail, b) ==>
                Prefix(begins, a) == DEFAULT && Prefix(begins, a + b) == "")
  {
    var tail := a[1..];
    if |a| <= 2 {
      assert a[0..] == a;
      CutsShort(begins, a, b);
      CutsShort(a[0] == '\n', tail, b);
      if |a| == 2 { assert tail[0..] == tail && [a[1]] == tail; }
    } else {
      CutBehind(begins, a, b, |a| - 1);
      CutBehind(begins, a, b, |a| - 2);
      assert Tagged(a) <==> Tagged(a + b);
    }
  }

  lemma CutsShort(begins: bool, a: string, b: string)
    requires |a| <= 2
    ensures CutsTag(begins, a, b) <==>
              (a != "" && begins && Tagged(a + b)) || (|a| == 2 && a[0] == '\n' && Tagged(a[1..] + b))
  {
    if a != "" { assert a[0..] == a; }
  }

  /** How many of the cuts between messages fall inside a tag. */
  function Cuts(begins: bool, msgs: seq<string>): nat
    decreases |msgs|
  {
    if msgs == [] then 0
    else (if CutsTag(begins, msgs[0], Concat(msgs[1..])) then 1 else 0) + Cuts(BeginsAfter(begins, msgs[0]), msgs[1..])
  }

  lemma {:induction false} StreamCuts(begins: bool, msgs: seq<string>)
    ensures |Stream(begins, msgs)| == |Out(begins, Concat(msgs))| + 3 * Cuts(begins, msgs)
    ensures Cuts(begins, msgs) == 0 ==> Stream(begins, msgs) == Out(begins, Concat(msgs))
    decreases |msgs|
  {
    hide Tagged, CutsTag;
    if msgs != [] {
      OutCut(begins, msgs[0], Concat(msgs[1..]));
      StreamCuts(BeginsAfter(begins, msgs[0]), msgs[1..]);
    }
  }

  /** The log depends only on the text and not on how it was cut into messages, exactly when
      no cut falls inside a tag at the start of a line. */
  lemma CutIndependent(begins: bool, msgs: seq<string>)
    ensures Stream(begins, msgs) == Out(begins, Concat(msgs)) <==> Cuts(begins, msgs) == 0
  {
    StreamCuts(begins, msgs);
  }

  lemma NotCut(begins: bool, a: string, b: string)
    requires forall i :: LineStart(begins, a, i) ==> a[i] != '<'
    ensures !CutsTag(begins, a, b)
  {
  }

  /** The line starts of a whole text are those of its two parts. */
  lemma StartsInParts(begins: bool, a: string, b: string)
    requires forall i :: LineStart(begins, a + b, i) ==> (a + b)[i] != '<'
    ensures forall i :: LineStart(begins, a, i) ==> a[i] != '<'
    ensures forall i :: LineStart(BeginsAfter(begins, a), b, i) ==> b[i] != '<'
  {
    forall i | LineStart(begins, a, i) ensures a[i] != '<' {
      assert LineStart(begins, a + b, i);
      assert (a + b)[i] == a[i];
    }
    forall i | LineStart(BeginsAfter(begins, a), b, i) ensures b[i] != '<' {
      assert LineStart(begins, a + b, |a| + i);
      assert (a + b)[|a| + i] == b[i];
    }
  }

  /** No line starts with '<': then no cut can matter. */
  lemma {:induction false} PlainText(begins: bool, msgs: seq<string>)
    requires forall i :: LineStart(begins, Concat(msgs), i) ==> Concat(msgs)[i] != '<'
    ensures Stream(begins, msgs) == Out(begins, Concat(msgs))
    decreases |msgs|
  {
    hide Out, Tagged, CutsTag, BeginsAfter, LineStart;
    if msgs == [] {
      OutEmpty(begins, "");
    } else {
      var a, b := msgs[0], Concat(msgs[1..]);
      assert Concat(msgs) == a + b;
      StartsInParts(begins, a, b);
      PlainText(BeginsAfter(begins, a), msgs[1..]);
      NotCut(begins, a, b);
      OutCut(begins, a, b);
    }
  }
}

/** The environment in its RAM buffer: search, delete in place, append, look up
    and enumerate. `entries` is the value the bytes stand for. */
module EnvStore {
  import opened EnvImage
  import opened Options

  function CharAt(s: string, i: nat): char {
    if i < |s| then s[i] else NUL
  }

  /** `strlen(name) + 2` and one more than each argument's length. */
  function EntryBytes(name: string, args: seq<string>): nat {
    |name| + 2 + ArgBytes(args)
  }

  function ArgBytes(args: seq<string>): nat {
    if args == [] then 0 else |args[0]| + 1 + ArgBytes(args[1..])
  }

  /** What stands in the buffer once the name and these arguments are written. */
  function Written(name: string, args: seq<string>): string {
    if args == [] then name else name + ['='] + Join(args)
  }

  lemma {:induction false} JoinAppend(args: seq<string>, a: string)
    requires args != []
    ensures Join(args + [a]) == Join(args) + [' '] + a
  {
    assert (args + [a])[1..] == args[1..] + [a];
    if |args| > 1 {
      JoinAppend(args[1..], a);
    }
  }

  /** One more argument: '=' before the first, a blank before every other one. */
  lemma WrittenAppend(name: string, args: seq<string>, a: string)
    ensures Written(name, args + [a]) == Written(name, args) + ([if args == [] then '=' else ' '] + a)
  {
    if args != [] {
      JoinAppend(args, a);
    }
  }

  lemma {:induction false} WrittenLength(name: string, args: seq<string>)
    ensures |Written(name, args)| == |name| + ArgBytes(args)
  {
    if |args| > 1 {
      WrittenLength(name, args[1..]);
    } else if |args| == 1 {
      assert args[1..] == [];
    }
  }

  lemma {:induction false} ArgBytesPrefix(args: seq<string>, i: nat)
    requires i <= |args|
    ensures ArgBytes(args[..i]) <= ArgBytes(args)
  {
    if i > 0 {
      ArgBytesPrefix(args[1..], i - 1);
      assert args[..i][1..] == args[1..][..i - 1];
    }
  }

  /** One turn of the append loop, with everything written so far in front. */
  lemma WrittenStep(before: string, name: string, args: seq<string>, i: nat)
    requires i < |args|
    ensures before + Written(name, args[..i + 1])
         == before + Written(name, args[..i]) + ([if i == 0 then '=' else ' '] + args[i])
  {
    hide Written;
    assert args[..i + 1] == args[..i] + [args[i]];
    WrittenAppend(name, args[..i], args[i]);
    Glue(before, Written(name, args[..i]), [if i == 0 then '=' else ' '] + args[i]);
  }

  lemma Glue(a: string, b: string, c: string)
    ensures a + (b + c) == a + b + c
  {
  }

  /** And there is room for it. */
  lemma WrittenFits(name: string, args: seq<string>, i: nat)
    requires i < |args|
    ensures |Written(name, args[..i])| + 1 + |args[i]| <= |name| + ArgBytes(args)
  {
    hide Written, ArgBytes;
    assert args[..i + 1] == args[..i] + [args[i]];
    WrittenAppend(name, args[..i], args[i]);
    WrittenLength(name, args[..i + 1]);
    ArgBytesPrefix(args, i + 1);
  }

  lemma NothingWritten(name: string)
    ensures Written(name, []) == name
  {
  }

  lemma {:induction false} JoinHasNoNul(args: seq<string>)
    requires forall a :: a in args ==> NUL !in a
    ensures NUL !in Join(args)
  {
    if |args| > 1 {
      JoinHasNoNul(args[1..]);
    }
  }

  lemma TextShape(e: Entry)
    ensures |Text(e)| == |e.name| + 1 + |e.value| && Text(e)[|e.name|] == '='
  {
  }

  /** One more character of the name agrees. */
  lemma KeyGoesOn(s: string, e: Entry, j: nat)
    requires IsEntry(e) && j <= |s| && j <= |e.name| && s[..j] == e.name[..j]
    requires CharAt(s, j) == Text(e)[j] != '='
    ensures j < |s| && j < |e.name| && s[..j + 1] == e.name[..j + 1]
  {
    if j < |e.name| {
      assert Text(e)[j] == e.name[j];
      assert e.name[j] in e.name;
    }
  }

  lemma KeyHit(s: string, e: Entry, j: nat)
    requires IsEntry(e) && j <= |s| && j <= |e.name| && s[..j] == e.name[..j]
    requires CharAt(s, j) == Text(e)[j] == '='
    ensures KeyOf(s) == e.name && j == |e.name|
  {
    if j < |e.name| {
      assert false;
    }
    KeyOfPrefix(s, j);
    assert KeyOf(s[j..]) == [];
  }

  /** The first difference between a string and an entry decides whether the keys agree. */
  lemma KeyDecided(s: string, e: Entry, j: nat)
    requires IsEntry(e) && NUL !in s && j <= |s| && j <= |e.name| && s[..j] == e.name[..j]
    requires CharAt(s, j) != Text(e)[j]
    ensures KeyOf(s) == e.name <==> CharAt(s, j) == NUL && Text(e)[j] == '='
    ensures KeyOf(s) == e.name ==> j == |e.name|
  {
    assert '=' !in s[..j];
    KeyOfPrefix(s, j);
    if j < |e.name| {
      assert Text(e)[j] == e.name[j];
    }
    if j < |s| && s[j] != '=' {
      assert KeyOf(s)[j] == s[j];
    }
  }

  lemma {:induction false} UpToNulStops(s: string, n: nat)
    requires n < |s| && s[n] == NUL
    requires forall i :: 0 <= i < n ==> s[i] != NUL
    ensures UpToNul(s) == s[..n]
  {
    if n > 0 {
      UpToNulStops(s[1..], n - 1);
      assert s[..n] == [s[0]] + s[1..][..n - 1];
    }
  }

  lemma KeyOfText(e: Entry)
    requires IsEntry(e)
    ensures KeyOf(Text(e)) == e.name
  {
    assert Text(e)[..|e.name|] == e.name;
    KeyOfPrefix(Text(e), |e.name|);
    assert Text(e)[|e.name|..][0] == '=';
  }

  /** *next after API_env_enum: an address in the buffer, NULL, or still `last`. */
  datatype EnumResult = At(offset: nat) | NoMore | SameAsLast

  /** What printenv prints for all entries. */
  function Printed(es: seq<Entry>): string {
    if es == [] then "" else Printed(es[..|es| - 1]) + (Text(es[|es| - 1]) + "\n")
  }

  lemma PrintedNone()
    ensures Printed([]) == ""
  {
  }

  lemma PrintedMore(es: seq<Entry>, k: nat)
    requires k < |es|
    ensures Printed(es[..k + 1]) == Printed(es[..k]) + (Text(es[k]) + "\n")
  {
    assert es[..k + 1][..k] == es[..k];
  }

  /** puts stops at the first NUL. */
  lemma PiecePut(buf: string, n: nat)
    requires n < |buf| == 17 && buf[16] == NUL && NUL !in buf[..n]
    ensures buf[n] == NUL ==> UpToNul(buf) == buf[..n]
    ensures n == 15 && buf[n] != NUL ==> UpToNul(buf) == buf[..16]
  {
    assert forall i :: 0 <= i < n ==> buf[i] == buf[..n][i];
    if buf[n] == NUL { UpToNulStops(buf, n); }
    if n == 15 && buf[n] != NUL { UpToNulStops(buf, 16); }
  }

  class Environment {
    const data: array<char>
    const configEnvSize: nat
    var envId: int
    ghost var entries: seq<Entry>

    ghost predicate Valid()
      reads this, data
    {
      && data.Length <= configEnvSize
      && WellFormed(entries)
      && |Image(entries)| <= data.Length
      && data[..|Image(entries)|] == Image(entries)
    }

    /** An empty environment in a buffer of ENV_SIZE bytes. */
    constructor (envSize: nat, header: nat)
      requires envSize >= 2
      ensures Valid() && fresh(data) && data.Length == envSize && entries == []
    {
      data := new char[envSize](_ => NUL);
      configEnvSize := envSize + header;
      envId := 1;
      entries := [];
      new;
      assert data[..2] == [NUL, NUL];
    }

    /** Where entry k sits, and that its bytes are there. */
    lemma EntryAt(k: nat)
      requires Valid() && k < |entries|
      ensures Start(entries, k + 1) == Start(entries, k) + |Text(entries[k])| + 1
      ensures Start(entries, k + 1) < |Image(entries)| <= data.Length
      ensures forall p :: 0 <= p - Start(entries, k) < |Text(entries[k])| ==>
                data[p] == Text(entries[k])[p - Start(entries, k)] && data[p] != NUL
      ensures data[Start(entries, k) + |Text(entries[k])|] == NUL
    {
      EntryIn(entries, k);
      hide Flat, Text, Image, Start;
      assert forall p :: 0 <= p < |Image(entries)| ==> data[p] == data[..|Image(entries)|][p];
    }

    lemma EndAt()
      requires Valid()
      ensures Start(entries, |entries|) == |Flat(entries)| < |Image(entries)| <= data.Length
      ensures data[|Flat(entries)|] == NUL
      ensures Start(entries, 0) == 0
    {
      assert entries[..|entries|] == entries;
      assert entries[..0] == [];
      assert data[..|Image(entries)|][|Flat(entries)|] == NUL;
    }

    /** Compares a name (or a whole "name=value" string) with the entry stored at i2. */
    method EnvMatch(s1: string, i2: nat, ghost k: nat) returns (r: int)
      requires Valid() && NUL !in s1
      requires k < |entries| && i2 == Start(entries, k)
      ensures r == if KeyOf(s1) == entries[k].name then i2 + |KeyOf(s1)| + 1 else -1
    {
      hide Flat, Image, Start, Text, KeyOf;
      EntryAt(k);
      ghost var e := entries[k];
      TextShape(e);
      var i, j := i2, 0;
      while CharAt(s1, j) == data[i]
        invariant i == i2 + j && j <= |s1| && j <= |e.name|
        invariant s1[..j] == e.name[..j]
        decreases |s1| - j
      {
        i := i + 1;
        if CharAt(s1, j) == '=' {
          KeyHit(s1, e, j);
          return i;
        }
        KeyGoesOn(s1, e, j);
        j := j + 1;
      }
      i := i + 1;
      KeyDecided(s1, e, j);
      if CharAt(s1, j) == NUL && data[i - 1] == '=' {
        return i;
      }
      return -1;
    }

    /** Walks the entries until one matches the name. */
    method Search(name: string) returns (env: nat, nxt: nat, oldval: int, ghost k: nat)
      requires Valid() && NUL !in name
      ensures k <= |entries| && env == Start(entries, k)
      ensures oldval < 0 <==> k == |entries|
      ensures forall j :: 0 <= j < k ==> entries[j].name != KeyOf(name)
      ensures k < |entries| ==>
                && entries[k].name == KeyOf(name)
                && nxt == env + |Text(entries[k])|
                && oldval == env + |KeyOf(name)| + 1
    {
      env, nxt, oldval, k := 0, 0, -1, 0;
      EndAt();
      hide *;
      while data[env] != NUL
        invariant k <= |entries| && env == Start(entries, k) && env < data.Length
        invariant oldval == -1
        invariant forall j :: 0 <= j < k ==> entries[j].name != KeyOf(name)
        decreases |entries| - k
      {
        EntryAt(k);
        nxt := env;
        while data[nxt] != NUL
          invariant env <= nxt <= env + |Text(entries[k])|
          decreases env + |Text(entries[k])| - nxt
        {
          nxt := nxt + 1;
        }
        oldval := EnvMatch(name, env, k);
        if oldval >= 0 {
          return;
        }
        env, k := nxt + 1, k + 1;
      }
      NotFound(k, KeyOf(name));
    }

    /** The compaction loop: copies downwards until it has copied the NUL before the final one. */
    method ShiftDown(env: nat, nxt: nat, ghost total: nat) returns (e: nat)
      requires env < nxt < total < data.Length
      requires data[total - 1] == NUL && data[total] == NUL
      requires forall t :: nxt <= t < total - 1 ==> data[t] != NUL || data[t + 1] != NUL
      modifies data
      ensures e == env + (total - nxt) - 1
      ensures data[..e + 1] == old(data[..env]) + old(data[nxt..total])
    {
      var n := nxt;
      e := env;
      while true
        invariant env <= e && n - nxt == e - env && n < total
        invariant forall i :: 0 <= i < env ==> data[i] == old(data[i])
        invariant forall i :: env <= i < e ==> data[i] == old(data[i - env + nxt])
        invariant forall i :: e <= i < data.Length ==> data[i] == old(data[i])
        decreases total - n
      {
        data[e] := data[n];
        n := n + 1;
        if data[e] == NUL && data[n] == NUL {
          break;
        }
        e := e + 1;
      }
      assert n == total;
      Compacted(old(data[..]), data[..], env, nxt, total, e);
      assert data[..e + 1] == data[..][..e + 1];
      assert old(data[..env]) == old(data[..])[..env] && old(data[nxt..total]) == old(data[..])[nxt..total];
    }

    lemma Compacted(was: string, now: string, env: nat, nxt: nat, total: nat, e: nat)
      requires env < nxt < total < |was| == |now| && e == env + (total - nxt) - 1
      requires forall i :: 0 <= i < env ==> now[i] == was[i]
      requires forall i :: env <= i <= e ==> now[i] == was[i - env + nxt]
      ensures now[..e + 1] == was[..env] + was[nxt..total]
    {
    }

    /** The buffer around entry k, and where the image ends. */
    lemma Around(k: nat)
      requires Valid() && k < |entries|
      ensures var env, gap, total := Start(entries, k), |Text(entries[k])| + 1, |Flat(entries)|;
              && total + 1 <= data.Length && env + gap <= total
              && data[..env] == Flat(entries[..k])
              && data[env + gap..total] == Flat(entries[k + 1..])
              && data[total - 1] == NUL && data[total] == NUL
              && (forall t :: 0 <= t < total - 1 ==> data[t] != NUL || data[t + 1] != NUL)
              && (data[env + gap] == NUL <==> k + 1 == |entries|)
    {
      hide Flat, Text, Start, Image;
      SplitAt(entries, k);
      AroundEntry(entries, k);
      ImageEnd(entries);
      NextEntry(k);
      var all, total := data[..|Image(entries)|], |Flat(entries)|;
      assert forall p :: 0 <= p < |all| ==> data[p] == all[p];
      assert data[..Start(entries, k)] == all[..Start(entries, k)];
      assert data[Start(entries, k + 1)..total] == all[Start(entries, k + 1)..total];
    }

    lemma NextEntry(k: nat)
      requires Valid() && k < |entries|
      ensures Start(entries, k + 1) < data.Length
      ensures data[Start(entries, k + 1)] == NUL <==> k + 1 == |entries|
    {
      EndAt();
      EntryAt(k);
      if k + 1 < |entries| {
        EntryAt(k + 1);
        assert |Text(entries[k + 1])| > 0;
        assert data[Start(entries, k + 1)] != NUL;
      }
    }

    /** The last entry goes: only the end mark moves. */
    method DropLast(env: nat, ghost k: nat)
      requires Valid() && k + 1 == |entries| && env == Start(entries, k)
      modifies data
      ensures |Image(entries[..k])| <= data.Length
      ensures data[..|Image(entries[..k])|] == Image(entries[..k])
    {
      Around(k);
      if k > 0 { FlatNonEmpty(entries[..k]); }
      ghost var before := data[..env];
      var e := env;
      if e > 0 {
        e := e - 1;
      } else {
        data[e] := NUL;
      }
      e := e + 1;
      data[e] := NUL;
      assert env > 0 ==> data[..env + 1] == before + [NUL];
    }

    /** A middle entry goes: the rest moves down, and a new end mark follows it. */
    method CloseGap(env: nat, n: nat, ghost k: nat)
      requires Valid() && k + 1 < |entries|
      requires env == Start(entries, k) && n == env + |Text(entries[k])| + 1
      modifies data
      ensures |Image(RemoveAt(entries, k))| <= data.Length
      ensures data[..|Image(RemoveAt(entries, k))|] == Image(RemoveAt(entries, k))
    {
      hide Flat, Text, Start, Image, RemoveAt, WellFormed;
      ghost var total := |Flat(entries)|;
      Around(k);
      RemoveAtImage(entries, k);
      ghost var a, b := Flat(entries[..k]), Flat(entries[k + 1..]);
      var e := ShiftDown(env, n, total);
      assert data[..e + 1] == a + b;
      e := e + 1;
      assert data[..e] == a + b;
      data[e] := NUL;
      assert data[..e] == a + b;
      assert data[..e + 1] == a + b + [NUL];
    }

    /** Removes entry k by moving everything behind it down over it. */
    method Delete(env: nat, nxt: nat, ghost k: nat)
      requires Valid() && k < |entries|
      requires env == Start(entries, k) && nxt == env + |Text(entries[k])|
      modifies data, this`entries
      ensures Valid() && entries == RemoveAt(old(entries), k)
    {
      ghost var rest := RemoveAt(entries, k);
      RemoveAtWellFormed(entries, k);
      var n := nxt + 1;
      Around(k);
      if data[n] == NUL {
        assert rest == entries[..k];
        DropLast(env, k);
      } else {
        CloseGap(env, n, k);
      }
      entries := rest;
    }

    /** C's copying loop: the characters of s and its NUL. */
    method PutString(at: nat, s: string) returns (end: nat)
      requires at + |s| < data.Length && NUL !in s
      modifies data
      ensures end == at + |s|
      ensures data[..end] == old(data[..at]) + s && data[end] == NUL
      ensures forall i :: 0 <= i < data.Length && !(at <= i <= end) ==> data[i] == old(data[i])
    {
      end := at;
      data[end] := CharAt(s, 0);
      while data[end] != NUL
        invariant at <= end <= at + |s|
        invariant data[end] == CharAt(s, end - at)
        invariant forall i :: at <= i < end ==> data[i] == s[i - at]
        invariant forall i :: 0 <= i < data.Length && !(at <= i <= end) ==> data[i] == old(data[i])
        decreases at + |s| - end
      {
        end := end + 1;
        data[end] := CharAt(s, end - at);
      }
    }

    /** Finds where a new entry goes: at the final NUL, or at the front of an empty environment. */
    method FindEnd() returns (env: nat)
      requires Valid()
      ensures env == |Flat(entries)| && env + 1 <= data.Length
    {
      hide Flat, Image, WellFormed;
      env := 0;
      ghost var last := FinalNuls();
      while data[env] != NUL || data[env + 1] != NUL
        invariant env <= last && last + 1 < data.Length
        decreases last - env
      {
        env := env + 1;
      }
      if env > 0 {
        env := env + 1;
      }
    }

    /** Where the first pair of NULs stands. */
    lemma FinalNuls() returns (last: nat)
      requires Valid()
      ensures last + 1 < data.Length && data[last] == NUL && data[last + 1] == NUL
      ensures forall t :: 0 <= t < last ==> data[t] != NUL || data[t + 1] != NUL
      ensures |Flat(entries)| == if last == 0 then 0 else last + 1
    {
      hide Flat;
      if entries == [] {
        last := 0;
        assert data[0] == data[..2][0] && data[1] == data[..2][1];
        EmptyFlat();
      } else {
        FlatEndsInNul(entries);
        assert entries[|entries| - 1 + 1..] == [];
        Around(|entries| - 1);
        FlatNonEmpty(entries);
        assert data[0] == data[..|Image(entries)|][0];
        last := |Flat(entries)| - 1;
      }
    }

    lemma EmptyFlat()
      ensures Flat([]) == ""
    {
    }

    method WriteArg(env: nat, separator: char, val: string) returns (end: nat)
      requires env + 1 + |val| < data.Length && NUL !in val
      modifies data
      ensures end == env + 1 + |val| && data[end] == NUL
      ensures data[..end] == old(data[..env]) + ([separator] + val)
      ensures forall j :: end < j < data.Length ==> data[j] == old(data[j])
    {
      ghost var before := data[..env];
      data[env] := separator;
      assert data[..env + 1] == before + [separator];
      end := PutString(env + 1, val);
      assert before + [separator] + val == before + ([separator] + val);
    }

    /** Writes `=arg0 arg1 ...` behind a name that has just been written. */
    method WriteArgs(from: nat, name: string, args: seq<string>) returns (env: nat)
      requires from + ArgBytes(args) < data.Length && data[from] == NUL
      requires from >= |name| && data[from - |name|..from] == name
      requires args != [] && forall a :: a in args ==> NUL !in a
      modifies data
      ensures env == from + ArgBytes(args) && data[env] == NUL
      ensures data[..env] == old(data[..from - |name|]) + Written(name, args)
      ensures forall j :: env < j < data.Length ==> data[j] == old(data[j])
    {
      hide Written, ArgBytes, Join;
      ghost var before := data[..from - |name|];
      env := from;
      var i := 0;
      NothingWritten(name);
      assert data[..env] == before + name;
      while i < |args|
        invariant i <= |args|
        invariant env < data.Length
        invariant data[..env] == before + Written(name, args[..i])
        invariant data[env] == NUL
        invariant forall j :: from + ArgBytes(args) < j < data.Length ==> data[j] == old(data[j])
      {
        WrittenStep(before, name, args, i);
        WrittenFits(name, args, i);
        env := WriteArg(env, if i == 0 then '=' else ' ', args[i]);
        i := i + 1;
      }
      assert args[..|args|] == args;
      WrittenLength(name, args);
    }

    /** The name, its arguments, and the two closing NULs. */
    method WriteEntry(start: nat, name: string, args: seq<string>) returns (env: nat)
      requires start + EntryBytes(name, args) <= data.Length
      requires NUL !in name && args != [] && forall a :: a in args ==> NUL !in a
      modifies data
      ensures env == start + EntryBytes(name, args)
      ensures data[..env] == old(data[..start]) + (Written(name, args) + [NUL, NUL])
      ensures forall j :: env <= j < data.Length ==> data[j] == old(data[j])
    {
      hide Join, Written, ArgBytes;
      env := PutString(start, name);
      assert data[start..env] == data[..env][start..];
      assert data[..start] == data[..env][..start];
      env := WriteArgs(env, name, args);
      WrittenLength(name, args);
      ghost var body := data[..env];
      env := env + 1;
      assert data[..env] == body + [NUL];
      data[env] := NUL;
      assert data[..env] == body + [NUL];
      env := env + 1;
      assert data[..env] == body + [NUL] + [NUL];
      assert body + [NUL] + [NUL] == body + [NUL, NUL];
    }

    /** Appends `name=args[0] args[1] ...` when it fits, and then touches exactly the bytes it counted. */
    method Append(name: string, args: seq<string>) returns (rc: int)
      requires Valid() && IsName(name) && name !in AsMap(entries)
      requires args != [] && forall a :: a in args ==> NUL !in a
      modifies data, this`entries
      ensures Valid()
      ensures rc == 0 || rc == 1
      ensures rc == 0 <==> old(|Flat(entries)|) + EntryBytes(name, args) <= data.Length
      ensures entries == if rc == 0 then old(entries) + [Entry(name, Join(args))] else old(entries)
      ensures forall i :: 0 <= i < data.Length && !(rc == 0 && 0 <= i - old(|Flat(entries)|) < EntryBytes(name, args))
                ==> data[i] == old(data[i])
    {
      hide Flat, Image, Join, Written, WellFormed, AsMap;
      var start := FindEnd();
      var len := CountBytes(name, args);
      if len > data.Length - start {
        return 1;
      }
      FlatHeld();
      var env := WriteEntry(start, name, args);
      ghost var e := Entry(name, Join(args));
      JoinHasNoNul(args);
      AppendWellFormed(entries, e);
      ImageAppended(entries, name, args);
      entries := entries + [e];
      return 0;
    }

    lemma FlatHeld()
      requires Valid()
      ensures |Flat(entries)| <= data.Length && data[..|Flat(entries)|] == Flat(entries)
    {
      assert data[..|Flat(entries)|] == data[..|Image(entries)|][..|Flat(entries)|];
    }

    /** The image with a new entry is that of the others, what is written, and the final NULs. */
    lemma ImageAppended(es: seq<Entry>, name: string, args: seq<string>)
      requires args != []
      ensures Image(es + [Entry(name, Join(args))]) == Flat(es) + (Written(name, args) + [NUL, NUL])
    {
      hide Flat, Join;
      var e := Entry(name, Join(args));
      FlatAppend(es, [e]);
      FlatOne(e);
      assert Written(name, args) + [NUL] + [NUL] == Written(name, args) + [NUL, NUL];
      assert Flat(es) + (Text(e) + [NUL]) + [NUL] == Flat(es) + (Text(e) + [NUL] + [NUL]);
    }

    method CountBytes(name: string, args: seq<string>) returns (len: nat)
      ensures len == EntryBytes(name, args)
    {
      len := |name| + 2;
      var i := 0;
      while i < |args|
        invariant i <= |args| && len + ArgBytes(args[i..]) == EntryBytes(name, args)
      {
        assert args[i..][1..] == args[i + 1..];
        len := len + |args[i]| + 1;
        i := i + 1;
      }
    }

    /** Deletes the definition of a name, when there is one. */
    method Unset(name: string)
      requires Valid() && IsName(name)
      modifies data, this`entries
      ensures Valid()
      ensures entries == Without(old(entries), name)
      ensures AsMap(entries) == old(AsMap(entries)) - {name}
    {
      KeyOfPrefix(name, |name|);
      assert KeyOf(name) == name;
      var env, nxt, oldval;
      ghost var k;
      env, nxt, oldval, k := Search(name);
      if oldval >= 0 {
        WithoutFound(entries, k);
        RemoveAtMap(entries, k);
        Delete(env, nxt, k);
      } else {
        AsMapKeys(entries);
        WithoutAbsent(entries, name);
        assert AsMap(entries) - {name} == AsMap(entries);
      }
    }

    /** setenv: no arguments deletes, otherwise the arguments become the value.
        Deleting comes first, so a value that does not fit leaves the name unset. */
    method SetEnv(name: string, args: seq<string>) returns (rc: int)
      requires Valid() && NUL !in name && forall a :: a in args ==> NUL !in a
      modifies this, data
      ensures Valid()
      ensures rc == 0 || rc == 1
      ensures '=' in name ==> rc == 1 && entries == old(entries) && data[..] == old(data[..]) && envId == old(envId)
      ensures '=' !in name ==>
                && envId == old(envId) + 1
                && (rc == 1 <==>
                      args != [] && data.Length < |Flat(Without(old(entries), name))| + EntryBytes(name, args))
                && entries == (if args == [] || rc == 1 then Without(old(entries), name)
                               else Without(old(entries), name) + [Entry(name, Join(args))])
                && AsMap(entries) == (if args == [] || rc == 1 then old(AsMap(entries)) - {name}
                                      else old(AsMap(entries))[name := Join(args)])
    {
      hide Without, Join, Flat, Image, WellFormed, AsMap, EntryBytes;
      if '=' in name {
        return 1;
      }
      envId := envId + 1;
      Unset(name);
      if args == [] {
        return 0;
      }
      AppendMap(entries, Entry(name, Join(args)));
      rc := Append(name, args);
    }

    /** Reading the buffer as a C string from inside entry k gives the rest of its text. */
    lemma ReadFrom(k: nat, i: nat)
      requires Valid() && k < |entries| && i <= |Text(entries[k])|
      ensures Start(entries, k) + i < data.Length
      ensures UpToNul(data[Start(entries, k) + i..]) == Text(entries[k])[i..]
    {
      hide Flat, Image, Start, Text, WellFormed, UpToNul;
      EntryAt(k);
      var at := Start(entries, k) + i;
      var n := |Text(entries[k])| - i;
      var s := data[at..];
      assert forall j :: 0 <= j <= n ==> s[j] == data[at + j];
      UpToNulStops(s, n);
      assert s[..n] == Text(entries[k])[i..];
    }

    /** The value of entry k, read as a C string from just behind its '='. */
    lemma ValueAt(k: nat)
      requires Valid() && k < |entries|
      ensures var at := Start(entries, k) + |entries[k].name| + 1;
              at < data.Length && UpToNul(data[at..]) == entries[k].value
      ensures Start(entries, k) < data.Length && UpToNul(data[Start(entries, k)..]) == Text(entries[k])
    {
      ReadFrom(k, 0);
      ReadFrom(k, |entries[k].name| + 1);
      assert Text(entries[k])[|entries[k].name| + 1..] == entries[k].value;
    }

    /** The inner loop shared by getenv and the enumerator: finds the end of an entry.
        The bound check never fires on a valid environment. */
    method EndOfEntry(i: nat, ghost k: nat) returns (n: nat, over: bool)
      requires Valid() && k < |entries| && i == Start(entries, k)
      ensures !over && n == i + |Text(entries[k])|
      ensures n + 1 == Start(entries, k + 1) < data.Length
    {
      hide Flat, Image, Start, Text, WellFormed;
      EntryAt(k);
      ghost var len := |Text(entries[k])|;
      assert data.Length <= configEnvSize;
      n, over := i, false;
      while data[n] != NUL
        invariant i <= n <= i + len
        decreases i + len - n
      {
        if n >= configEnvSize {
          return n, true;
        }
        n := n + 1;
      }
    }

    /** getenv: the offset of the value, or -1. */
    method GetEnv(name: string) returns (r: int)
      requires Valid() && NUL !in name
      ensures r < 0 <==> KeyOf(name) !in AsMap(entries)
      ensures r >= 0 ==> r < data.Length && UpToNul(data[r..]) == AsMap(entries)[KeyOf(name)]
    {
      hide Flat, Image, Start, Text, WellFormed, KeyOf, UpToNul, AsMap;
      var i := 0;
      ghost var k := 0;
      EndAt();
      while data[i] != NUL
        invariant k <= |entries| && i == Start(entries, k) && i < data.Length
        invariant forall j :: 0 <= j < k ==> entries[j].name != KeyOf(name)
        decreases |entries| - k
      {
        var nxt, over := EndOfEntry(i, k);
        if over {
          return -1;
        }
        var val := EnvMatch(name, i, k);
        if val >= 0 {
          Found(k);
          return val;
        }
        i, k := nxt + 1, k + 1;
      }
      NotFound(k, KeyOf(name));
      return -1;
    }

    /** The inner loop of printenv: one entry in pieces of at most 16 characters. */
    method PutEntry(i0: nat, buf: array<char>, loud: bool, ghost k: nat) returns (i: nat, out: string)
      requires Valid() && k < |entries| && i0 == Start(entries, k)
      requires buf.Length == 17 && buf != data && buf[16] == NUL
      modifies buf
      ensures i == Start(entries, k + 1) && i < data.Length && buf[16] == NUL
      ensures out == if loud then Text(entries[k]) + "\n" else ""
    {
      hide Flat, Image, Start, Text, WellFormed, UpToNul;
      EntryAt(k);
      ghost var t := Text(entries[k]);
      i, out := i0, "";
      var j, c := 0, NUL;
      assert out + buf[..0] == t[..0];
      while true
        invariant i0 <= i <= i0 + |t| && 0 <= j < 16 && buf[16] == NUL
        invariant NUL !in buf[..j]
        invariant if loud then out + buf[..j] == t[..i - i0] else out == ""
        decreases i0 + |t| - i
      {
        ghost var before := buf[..j];
        c := data[i];
        buf[j] := c;
        i, j := i + 1, j + 1;
        assert buf[..j] == before + [c];
        PiecePut(buf[..], j - 1);
        if c == NUL {
          assert t[..i - 1 - i0] == t;
        } else {
          assert t[..i - i0] == t[..i - 1 - i0] + [c];
          if loud { assert out + before + [c] == out + (before + [c]); }
        }
        if j == 16 {
          if loud { out := out + UpToNul(buf[..]); }
          j := 0;
        }
        if c == NUL { break; }
        if j == 0 && loud { assert out + buf[..0] == out; }
      }
      if loud {
        if j > 0 { out := out + UpToNul(buf[..]); }
        out := out + "\n";
      }
    }

    /** printenv: state 1 prints everything, state 2 only the entry with the name. */
    method Printenv(name: string, state0: int) returns (i: nat, out: string)
      requires Valid() && NUL !in name && (state0 == 1 || state0 == 2)
      ensures state0 == 1 ==> i == |Flat(entries)| && out == Printed(entries)
      ensures state0 == 2 && KeyOf(name) in AsMap(entries) ==>
                i == 0 && out == Text(Entry(KeyOf(name), AsMap(entries)[KeyOf(name)])) + "\n"
      ensures state0 == 2 && KeyOf(name) !in AsMap(entries) ==> i == |Flat(entries)| && out == ""
    {
      hide Flat, Image, Start, Text, WellFormed, KeyOf, AsMap, Printed;
      var buf := new char[17];
      buf[16] := NUL;
      var state := state0;
      i, out := 0, "";
      ghost var k := 0;
      EndAt();
      PrintedNone();
      while state != 0 && data[i] != NUL
        invariant k <= |entries| && i == Start(entries, k) && i < data.Length && buf[16] == NUL
        invariant state == 0 || state == state0
        invariant state0 == 1 ==> state == 1 && out == Printed(entries[..k])
        invariant state == 2 ==> out == "" && forall j :: 0 <= j < k ==> entries[j].name != KeyOf(name)
        invariant state == 0 ==>
                    && KeyOf(name) in AsMap(entries)
                    && out == Text(Entry(KeyOf(name), AsMap(entries)[KeyOf(name)])) + "\n"
        decreases |entries| - k
      {
        InsideEntries(k);
        if state == 2 {
          var at := EnvMatch(name, i, k);
          if at >= 0 {
            state := 0;
            AsMapAt(entries, k);
            assert entries[k] == Entry(KeyOf(name), AsMap(entries)[KeyOf(name)]);
          }
        }
        PrintedMore(entries, k);
        var piece;
        i, piece := PutEntry(i, buf, state <= 1, k);
        out := out + piece;
        k := k + 1;
      }
      if state == 0 {
        i := 0;
      } else {
        PrintedEnd(k, KeyOf(name), state);
      }
    }

    lemma InsideEntries(k: nat)
      requires Valid() && k <= |entries| && Start(entries, k) < data.Length && data[Start(entries, k)] != NUL
      ensures k < |entries|
    {
      EndAt();
    }

    lemma PrintedEnd(k: nat, name: string, state: int)
      requires Valid() && k <= |entries| && Start(entries, k) < data.Length && data[Start(entries, k)] == NUL
      requires state == 2 ==> forall j :: 0 <= j < k ==> entries[j].name != name
      ensures k == |entries| && entries[..k] == entries && Start(entries, k) == |Flat(entries)|
      ensures state == 2 ==> name !in AsMap(entries)
    {
      if state == 2 { NotFound(k, name); }
      if k < |entries| {
        EntryAt(k);
        assert false;
      }
    }

    lemma Found(k: nat)
      requires Valid() && k < |entries|
      ensures entries[k].name in AsMap(entries)
      ensures var at := Start(entries, k) + |entries[k].name| + 1;
              at < data.Length && UpToNul(data[at..]) == AsMap(entries)[entries[k].name]
    {
      ValueAt(k);
      AsMapAt(entries, k);
    }

    /** A walk that has come to a NUL has come to the end. */
    lemma NotFound(k: nat, name: string)
      requires Valid() && k <= |entries|
      requires Start(entries, k) < data.Length && data[Start(entries, k)] == NUL
      requires forall j :: 0 <= j < k ==> entries[j].name != name
      ensures k == |entries| && name !in AsMap(entries)
    {
      if k < |entries| {
        EntryAt(k);
        assert false;
      }
      AsMapKeys(entries);
    }

    /** One enumeration step: where the entry after the one named by `last` starts. */
    method EnvEnum(last: Option<string>) returns (next: EnumResult)
      requires Valid() && (last.Some? ==> NUL !in last.value)
      ensures last.None? ==> next == At(0)
      ensures last.Some? && KeyOf(last.value) !in AsMap(entries) ==> next == SameAsLast
      ensures forall k :: last.Some? && 0 <= k < |entries| && entries[k].name == KeyOf(last.value) ==>
                next == if k + 1 < |entries| then At(Start(entries, k + 1)) else NoMore
    {
      if last.None? {
        return At(0);
      }
      next := SameAsLast;
      var i := 0;
      ghost var k := 0;
      EndAt();
      Distinct();
      hide *;
      while data[i] != NUL
        invariant k <= |entries| && i == Start(entries, k) && i < data.Length
        invariant forall j :: 0 <= j < k ==> entries[j].name != KeyOf(last.value)
        decreases |entries| - k
      {
        var n, over := EndOfEntry(i, k);
        if over {
          return;
        }
        var val := EnvMatch(last.value, i, k);
        if val >= 0 {
          AsMapKeys(entries);
          NextEntry(k);
          i := n + 1;
          if data[i] == NUL {
            return NoMore;
          }
          return At(i);
        }
        i, k := n + 1, k + 1;
      }
      NotFound(k, KeyOf(last.value));
    }

    lemma Distinct()
      requires Valid()
      ensures forall i, j :: 0 <= i < |entries| && 0 <= j < |entries| && entries[i].name == entries[j].name ==> i == j
    {
    }

    /** Starting with NULL and feeding every result back visits each entry once, in order, and
        stops; without entries it gets an empty string and then that string for ever. */
    method EnumerateAll() returns (seen: seq<string>, ends: bool)
      requires Valid()
      ensures ends <==> entries != []
      ensures ends ==> |seen| == |entries| && forall k :: 0 <= k < |entries| ==> seen[k] == Text(entries[k])
      ensures !ends ==> seen == [""]
    {
      hide Flat, Image, Start, Text, WellFormed, UpToNul, KeyOf, AsMap;
      seen := [];
      var next := EnvEnum(None);
      EndAt();
      while next.At?
        invariant |seen| <= |entries|
        invariant next == if seen == [] then At(0)
                            else if |seen| < |entries| then At(Start(entries, |seen|)) else NoMore
        invariant forall k :: 0 <= k < |seen| ==> seen[k] == Text(entries[k])
        decreases |entries| - |seen|
      {
        if entries == [] { ReadNothing(); } else { ReadWhole(|seen|); }
        var text := UpToNul(data[next.offset..]);
        seen := seen + [text];
        next := EnvEnum(Some(text));
        if next.SameAsLast? { return seen, false; }
      }
      ends := true;
    }

    lemma ReadNothing()
      requires Valid() && entries == []
      ensures data.Length > 0 && UpToNul(data[0..]) == "" && KeyOf("") !in AsMap(entries)
    {
      assert data[0] == data[..2][0];
    }

    lemma ReadWhole(k: nat)
      requires Valid() && k < |entries|
      ensures Start(entries, k) < data.Length && UpToNul(data[Start(entries, k)..]) == Text(entries[k])
      ensures NUL !in Text(entries[k]) && KeyOf(Text(entries[k])) == entries[k].name
      ensures entries[k].name in AsMap(entries)
    {
      ValueAt(k);
      TextHasNoNul(entries[k]);
      KeyOfText(entries[k]);
      AsMapAt(entries, k);
    }
  }
}

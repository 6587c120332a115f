/** The pool's own test for duplicate shares, against the dispatcher's. */
module PoolDuplicates {
  import opened Bytes
  import opened Hex
  import opened SolutionPacket
  import opened DedupeKey
  import opened Dispatcher

  function LowerChar(c: char): char {
    if 'A' <= c <= 'Z' then (c as int + 32) as char else c
  }

  /** toLowerCase. */
  function Lower(s: string): (r: string)
    ensures |r| == |s|
  {
    seq(|s|, i requires 0 <= i < |s| => LowerChar(s[i]))
  }

  function UpperChar(c: char): char {
    if 'a' <= c <= 'z' then (c as int - 32) as char else c
  }

  function Upper(s: string): (r: string)
    ensures |r| == |s|
  {
    seq(|s|, i requires 0 <= i < |s| => UpperChar(s[i]))
  }

  /** A submission in capital letters counts as the same. */
  lemma CaseIgnored(s: string)
    ensures Lower(Upper(s)) == Lower(s)
  {
    forall i | 0 <= i < |s| ensures LowerChar(UpperChar(s[i])) == LowerChar(s[i]) { }
  }

  function Join(parts: seq<string>): string {
    if parts == [] then "" else parts[0] + Join(parts[1..])
  }

  /** The submissions of one job. */
  class Submissions {
    var submissions: seq<string>

    constructor ()
      ensures submissions == []
    {
      submissions := [];
    }

    /** handleSubmissions: true, and remembered, when the joined strings are new. */
    method Handle(header: seq<string>) returns (isNew: bool)
      modifies this
      ensures isNew == (Lower(Join(header)) !in old(submissions))
      ensures submissions == old(submissions) + if isNew then [Lower(Join(header))] else []
    {
      var submission := Lower(Join(header));
      isNew := submission !in submissions;
      if isNew { submissions := submissions + [submission]; }
    }
  }

  /** The strings of a submitted share: both nonces, the time and the nonce. */
  function Parts(session: seq<byte>, sol: Solution): seq<string> {
    [HexOf(session), HexOf(sol.extraNonce2), HexOf(Ordered(sol.nTime, LittleEndian)), HexOf(Ordered(sol.nonce, LittleEndian))]
  }

  function PoolKey(session: seq<byte>, sol: Solution): string {
    Lower(Join(Parts(session, sol)))
  }

  lemma {:induction false} LowerHex(b: seq<byte>)
    ensures Lower(HexOf(b)) == HexOf(b)
  {
    if b != [] {
      LowerHex(b[1..]);
      var h, t := HexOf(b), HexOf(b[1..]);
      assert h == HexOfByte(b[0]) + t;
      forall i | 0 <= i < |h| ensures LowerChar(h[i]) == h[i] {
        if i >= 2 { assert h[i] == t[i - 2] && Lower(t)[i - 2] == LowerChar(t[i - 2]); }
      }
    }
  }

  /** The hexadecimal of parts is the hexadecimal of the whole. */
  lemma {:induction false} HexAppend(a: seq<byte>, b: seq<byte>)
    ensures HexOf(a + b) == HexOf(a) + HexOf(b)
  {
    hide HexOf, HexOfByte;
    if a == [] {
      HexNothing();
      assert a + b == b;
    } else {
      HexAppend(a[1..], b);
      HexFront(a);
      HexFront(a + b);
      assert (a + b)[1..] == a[1..] + b;
      Regroup(HexOfByte(a[0]), HexOf(a[1..]), HexOf(b));
    }
  }

  lemma HexNothing()
    ensures HexOf([]) == ""
  {
  }

  lemma HexFront(b: seq<byte>)
    requires b != []
    ensures HexOf(b) == HexOfByte(b[0]) + HexOf(b[1..])
  {
  }

  lemma Regroup(x: string, y: string, z: string)
    ensures x + (y + z) == x + y + z
  {
  }

  /** What the pool compares, as bytes. */
  function Compared(session: seq<byte>, sol: Solution): seq<byte> {
    session + (sol.extraNonce2 + (Reversed(sol.nTime) + Reversed(sol.nonce)))
  }

  lemma PoolKeyIs(session: seq<byte>, sol: Solution)
    ensures PoolKey(session, sol) == HexOf(Compared(session, sol))
  {
    hide HexOf, Lower, Reversed;
    var x, y, z := sol.extraNonce2, Reversed(sol.nTime), Reversed(sol.nonce);
    HexAppend(y, z);
    HexAppend(x, y + z);
    HexAppend(session, x + (y + z));
    var p := Parts(session, sol);
    assert p[1..][1..] == p[2..] && p[2..][1..] == p[3..] && p[3..][1..] == [];
    assert Join(p[3..]) == HexOf(z) + "" == HexOf(z);
    assert Join(p[2..]) == HexOf(y) + HexOf(z);
    assert Join(p[1..]) == HexOf(x) + Join(p[2..]);
    assert Join(p) == HexOf(session) + Join(p[1..]);
    LowerHex(Compared(session, sol));
  }

  predicate SameShare(a: Solution, b: Solution) {
    a.extraNonce2 == b.extraNonce2 && a.nTime == b.nTime && a.nonce == b.nonce
  }

  /** Two shares of one session have one key at the pool exactly when they agree in extraNonce2, time
      and nonce. */
  lemma PoolKeyInjective(session: seq<byte>, a: Solution, b: Solution)
    ensures PoolKey(session, a) == PoolKey(session, b) <==> SameShare(a, b)
  {
    hide HexOf, Reversed;
    PoolKeyIs(session, a);
    PoolKeyIs(session, b);
    hide PoolKey, Compared;
    if PoolKey(session, a) == PoolKey(session, b) {
      HexInjective(Compared(session, a), Compared(session, b));
      ComparedParts(session, a);
      ComparedParts(session, b);
      ReversedTwice(a.nTime);
      ReversedTwice(b.nTime);
      ReversedTwice(a.nonce);
      ReversedTwice(b.nonce);
    } else if a.extraNonce2 == b.extraNonce2 && a.nTime == b.nTime && a.nonce == b.nonce {
      SameParts(session, a, b);
    }
  }

  lemma SameParts(session: seq<byte>, a: Solution, b: Solution)
    requires a.extraNonce2 == b.extraNonce2 && a.nTime == b.nTime && a.nonce == b.nonce
    ensures Compared(session, a) == Compared(session, b)
  {
  }

  lemma ComparedParts(session: seq<byte>, s: Solution)
    ensures var c, n := Compared(session, s), |session|;
      |c| == n + 16 && c[n..n + 8] == s.extraNonce2 && c[n + 8..n + 12] == Reversed(s.nTime) && c[n + 12..n + 16] == Reversed(s.nonce)
  {
    hide Reversed;
    var x, y, z := s.extraNonce2, Reversed(s.nTime), Reversed(s.nonce);
    var w: seq<byte> := x + (y + z);
    assert w[0..8] == x && w[8..12] == y && w[12..16] == z;
    var c, n := Compared(session, s), |session|;
    assert forall i :: 0 <= i < 16 ==> c[n + i] == w[i];
  }

  lemma ReversedTwice(b: seq<byte>)
    ensures Reversed(Reversed(b)) == b
  {
  }

  /** The dispatcher takes two shares for one that the pool tells apart exactly when they differ in
      the time alone; the pool takes two for one that the dispatcher tells apart exactly when they
      differ in the dispatcher's job id alone. */
  lemma KeysCompared(session: seq<byte>, a: Solution, b: Solution)
    ensures Key(a) == Key(b) && PoolKey(session, a) != PoolKey(session, b)
       <==> a.jobId == b.jobId && a.nonce == b.nonce && a.extraNonce2 == b.extraNonce2 && a.nTime != b.nTime
    ensures Key(a) != Key(b) && PoolKey(session, a) == PoolKey(session, b)
       <==> a.jobId != b.jobId && a.nonce == b.nonce && a.extraNonce2 == b.extraNonce2 && a.nTime == b.nTime
  {
    hide Key, PoolKey;
    KeyInjective(a, b);
    PoolKeyInjective(session, a, b);
  }

  /** No share that passed has the solution's key at the pool. */
  predicate NewAtPool(log: seq<Event>, session: seq<byte>, sol: Solution) {
    forall i :: 0 <= i < |log| && log[i].Passed? ==> PoolKey(session, log[i].sol) != PoolKey(session, sol)
  }

  /** In every run, a solution the pool would take as new is dropped exactly when a share with its
      job, nonce and extraNonce2 passed with no other job counted since, and no share that passed
      has its nonce, extraNonce2 and time. */
  lemma DroppedThoughNew(setup: Setup, s: State, run: seq<Step>, sol: Solution, session: seq<byte>)
    requires Initial(setup, s) && IsRun(setup, s, run)
    ensures
      var t := After(setup, s, run);
      var earlier := exists i :: PassedSince(t.log, i, Key(sol));
      var same := exists i :: 0 <= i < |t.log| && t.log[i].Passed? && SameShare(t.log[i].sol, sol);
      Key(sol) in t.recent && NewAtPool(t.log, session, sol) <==> earlier && !same
  {
    DroppedExactly(setup, s, run, sol);
    hide After, IsRun, Key, PoolKey, PassedSince, SameShare;
    var t := After(setup, s, run);
    forall i | 0 <= i < |t.log| && t.log[i].Passed? ensures PoolKey(session, t.log[i].sol) == PoolKey(session, sol) <==> SameShare(t.log[i].sol, sol) {
      PoolKeyInjective(session, t.log[i].sol, sol);
    }
  }

  /** The converse: two passed shares that the pool takes for one have different job ids at the
      dispatcher, or a solution of another job was counted in between. */
  lemma RepeatedAtPool(setup: Setup, s: State, run: seq<Step>, i: nat, j: nat, session: seq<byte>)
    requires Initial(setup, s) && IsRun(setup, s, run)
    requires var log := After(setup, s, run).log;
      i < j < |log| && log[i].Passed? && log[j].Passed? && PoolKey(session, log[i].sol) == PoolKey(session, log[j].sol)
    ensures var log := After(setup, s, run).log;
      log[i].sol.jobId != log[j].sol.jobId || OtherJobBetween(log, i, j, log[j].sol.jobId)
  {
    EveryRunIsSafe(setup, s, run);
    hide After, IsRun, Key, PoolKey, OtherJobBetween, SoundLog, CountersBalance, Meets, Sum;
    var log := After(setup, s, run).log;
    KeysCompared(session, log[i].sol, log[j].sol);
  }
}

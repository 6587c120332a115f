/** The reconnect scheduler of the receive loop: exponential backoff per connection, and a
    round-robin scan that tries at most one ready connection per call. */
module Reconnect {
  import opened Wrappers
  import opened Words

  const BASE_DELAY := 2
  const MAX_DELAY := 60

  // ----- One connection -----

  /** nextRetry is None while no reconnect is pending. */
  datatype State = State(delaySec: nat, nextRetry: Option<int>) {
    predicate Ready(now: int) {
      nextRetry.Some? && now >= nextRetry.value
    }

    function Scheduled(now: int): State {
      this.(nextRetry := Some(now + delaySec))
    }

    function BackedOff(): State {
      this.(delaySec := if delaySec < BASE_DELAY then BASE_DELAY else if delaySec * 2 < MAX_DELAY then delaySec * 2 else MAX_DELAY)
    }

    static function Reset(): State {
      State(BASE_DELAY, None)
    }

    predicate LegalDelay() {
      delaySec == 0 || BASE_DELAY <= delaySec <= MAX_DELAY
    }
  }

  /** The delay after m failures in a row of a connection scheduled at once. */
  function Failures(m: nat): State {
    if m == 0 then State(0, None) else Failures(m - 1).BackedOff()
  }

  /** 2, 4, 8, 16, 32, then 60 for ever. */
  lemma {:induction false} DelayDoubles(m: nat)
    requires m >= 1
    ensures Failures(m).delaySec == if Pow2(m) < MAX_DELAY then Pow2(m) else MAX_DELAY
  {
    if m == 1 {
      assert Failures(0) == State(0, None);
      assert Pow2(1) == 2 * Pow2(0) == 2;
    } else {
      DelayDoubles(m - 1);
      if m > 2 { Pow2Mono(2, m - 1); }
      assert Pow2(1) == 2 * Pow2(0) == 2;
    }
  }

  // ----- The scheduler -----

  datatype Scheduler = Scheduler(states: seq<State>, next: nat)

  /** What one call sees: a clock reading per connection scanned, whether the connect succeeds, and
      the time when a failed attempt is rescheduled. */
  datatype Env = Env(clock: seq<int>, connects: bool, later: int)

  /** x modulo n. */
  function Wrap(x: int, n: nat): (r: nat)
    requires n > 0
    ensures r < n
  {
    x % n
  }

  /** The connection looked at in step k of the scan. */
  function At(s: Scheduler, k: nat): (i: nat)
    requires |s.states| > 0
    ensures i < |s.states|
  {
    Wrap(s.next + k, |s.states|)
  }

  /** The first step, from k on, at which the connection is ready; the number of connections if none. */
  function FirstReady(s: Scheduler, clock: seq<int>, k: nat): (r: nat)
    requires |clock| == |s.states| && k <= |s.states|
    ensures k <= r <= |s.states|
    ensures r < |s.states| ==> s.states[At(s, r)].Ready(clock[r])
    ensures forall j :: k <= j < r ==> !s.states[At(s, j)].Ready(clock[j])
    decreases |s.states| - k
  {
    if k == |s.states| || s.states[At(s, k)].Ready(clock[k]) then k else FirstReady(s, clock, k + 1)
  }

  function Tried(s: Scheduler, env: Env): Option<nat>
    requires |env.clock| == |s.states|
  {
    var k := FirstReady(s, env.clock, 0);
    if k < |s.states| then Some(At(s, k)) else None
  }

  function Attempted(st: State, env: Env): State {
    if env.connects then State.Reset() else st.BackedOff().Scheduled(env.later)
  }

  /** tryOneReconnect. */
  function AfterTry(s: Scheduler, env: Env): (s': Scheduler)
    requires |env.clock| == |s.states|
    ensures |s'.states| == |s.states|
  {
    var n := |s.states|;
    if n == 0 then s
    else
      var k := FirstReady(s, env.clock, 0);
      if k == n then s.(next := Wrap(s.next, n))
      else Scheduler(s.states[At(s, k) := Attempted(s.states[At(s, k)], env)], Wrap(s.next + k + 1, n))
  }

  // ----- Runs -----

  datatype Event =
    | Try(env: Env)
    | Disconnect(i: nat, time: int)

  predicate Possible(s: Scheduler, e: Event) {
    match e
    case Try(env) => |env.clock| == |s.states|
    case Disconnect(i, _) => i < |s.states|
  }

  function Step(s: Scheduler, e: Event): (s': Scheduler)
    requires Possible(s, e)
    ensures |s'.states| == |s.states|
  {
    match e
    case Try(env) => AfterTry(s, env)
    case Disconnect(i, time) => s.(states := s.states[i := s.states[i].Scheduled(time)])
  }

  predicate IsRun(s: Scheduler, run: seq<Event>)
    decreases |run|
  {
    run == [] || (Possible(s, run[0]) && IsRun(Step(s, run[0]), run[1..]))
  }

  function After(s: Scheduler, run: seq<Event>): Scheduler
    requires IsRun(s, run)
    decreases |run|
  {
    if run == [] then s else After(Step(s, run[0]), run[1..])
  }

  /** The loop starts each connection connected, or with an immediate retry. */
  predicate Initial(s: Scheduler) {
    s.next == 0 && forall i :: 0 <= i < |s.states| ==> s.states[i] == State.Reset() || (s.states[i].delaySec == 0 && s.states[i].nextRetry.Some?)
  }

  predicate LegalDelays(s: Scheduler) {
    forall i :: 0 <= i < |s.states| ==> s.states[i].LegalDelay()
  }

  lemma {:induction false} DelaysKept(s: Scheduler, run: seq<Event>)
    requires LegalDelays(s) && IsRun(s, run)
    ensures LegalDelays(After(s, run))
    decreases |run|
  {
    if run != [] { DelaysKept(Step(s, run[0]), run[1..]); }
  }

  /** In every run from the start of the loop every delay is 0 or between 2 and 60 seconds. */
  lemma DelaysInEveryRun(s: Scheduler, run: seq<Event>)
    requires Initial(s) && IsRun(s, run)
    ensures LegalDelays(After(s, run))
  {
    DelaysKept(s, run);
  }

  // ----- The delays are waited -----

  /** Every clock reading of the run lies before the time. */
  predicate Before(run: seq<Event>, due: int) {
    forall j, k :: 0 <= j < |run| && run[j].Try? && 0 <= k < |run[j].env.clock| ==> run[j].env.clock[k] < due
  }

  predicate NeverTries(s: Scheduler, run: seq<Event>, i: nat)
    requires IsRun(s, run)
    decreases |run|
  {
    run == [] || ((run[0].Try? ==> Tried(s, run[0].env) != Some(i)) && NeverTries(Step(s, run[0]), run[1..], i))
  }

  lemma NotYet(s: Scheduler, env: Env, i: nat, due: int)
    requires |env.clock| == |s.states| && i < |s.states| && s.states[i].nextRetry == Some(due)
    requires forall k :: 0 <= k < |env.clock| ==> env.clock[k] < due
    ensures Tried(s, env) != Some(i) && AfterTry(s, env).states[i] == s.states[i]
  {
    hide Wrap;
  }

  /** In every run, a connection due at a time is left alone while all clocks read earlier. */
  lemma {:induction false} WaitsUntilDue(s: Scheduler, run: seq<Event>, i: nat, due: int)
    requires IsRun(s, run) && i < |s.states| && s.states[i].nextRetry == Some(due) && Before(run, due)
    requires forall j :: 0 <= j < |run| && run[j].Disconnect? ==> run[j].i != i
    ensures NeverTries(s, run, i) && |After(s, run).states| == |s.states| && After(s, run).states[i] == s.states[i]
    decreases |run|
  {
    if run != [] {
      var rest := run[1..];
      assert forall j :: 0 <= j < |rest| ==> rest[j] == run[j + 1];
      if run[0].Try? { NotYet(s, run[0].env, i, due); }
      hide AfterTry, Tried;
      WaitsUntilDue(Step(s, run[0]), rest, i, due);
    }
  }

  /** Once a connection is due by every clock reading, a call tries some connection. */
  lemma TriedOnceDue(s: Scheduler, env: Env, i: nat, due: int)
    requires |env.clock| == |s.states| && i < |s.states| && s.states[i].nextRetry == Some(due)
    requires forall k :: 0 <= k < |env.clock| ==> env.clock[k] >= due
    ensures Tried(s, env).Some?
  {
    hide FirstReady, Wrap;
    var d := Distance(s, i);
    ReachesTarget(s.next, i, |s.states|);
    assert At(s, d) == i && s.states[At(s, d)].Ready(env.clock[d]);
    assert FirstReady(s, env.clock, 0) <= d;
  }

  /** A lost connection waits its delay from then; a failed attempt waits twice the delay, between 2
      and 60 seconds; and after a success the next loss waits 2 seconds again. */
  lemma DueTimes(s: Scheduler, env: Env, i: nat, time: int)
    requires |env.clock| == |s.states| && i < |s.states|
    ensures Step(s, Disconnect(i, time)).states[i] == State(s.states[i].delaySec, Some(time + s.states[i].delaySec))
    ensures Tried(s, env) == Some(i) && !env.connects ==>
      var d := if s.states[i].delaySec < 2 then 2 else if s.states[i].delaySec > 30 then 60 else 2 * s.states[i].delaySec;
      AfterTry(s, env).states[i] == State(d, Some(env.later + d))
    ensures Tried(s, env) == Some(i) && env.connects ==> AfterTry(s, env).states[i] == State(2, None)
  {
    hide Wrap;
  }

  // ----- Fairness -----

  /** How far the scan is from connection t. */
  function Distance(s: Scheduler, t: nat): (d: nat)
    requires t < |s.states|
    ensures d < |s.states|
  {
    Wrap(t - s.next, |s.states|)
  }

  lemma WrapUnique(x: int, q: int, r: nat, n: nat)
    requires r < n && x == q * n + r
    ensures Wrap(x, n) == r
  {
    DivModUnique(x, q, r, n);
  }

  lemma WrapQuotient(x: int, n: nat) returns (q: int)
    requires n > 0
    ensures x == q * n + Wrap(x, n)
  {
    q := x / n;
  }

  lemma ReachesTarget(next: nat, t: nat, n: nat)
    requires t < n
    ensures Wrap(next + Wrap(t - next, n), n) == t
  {
    var d := Wrap(t - next, n);
    var q := WrapQuotient(t - next, n);
    hide Wrap;
    assert (-q) * n == 0 - q * n;
    WrapUnique(next + d, -q, t, n);
  }

  lemma ComesCloser(next: nat, t: nat, n: nat, k: nat)
    requires t < n && k < Wrap(t - next, n)
    ensures Wrap(t - Wrap(next + k + 1, n), n) == Wrap(t - next, n) - (k + 1)
  {
    var d := Wrap(t - next, n);
    var q := WrapQuotient(t - next, n);
    var u := WrapQuotient(next + k + 1, n);
    hide Wrap;
    assert (q + u) * n == q * n + u * n;
    WrapUnique(t - Wrap(next + k + 1, n), q + u, d - (k + 1), n);
  }

  /** A call either tries a ready connection or brings the scan closer to it. */
  lemma TriedOrCloser(s: Scheduler, env: Env, t: nat)
    requires |env.clock| == |s.states| && t < |s.states|
    requires forall k :: 0 <= k < |s.states| ==> s.states[t].Ready(env.clock[k])
    ensures Tried(s, env) == Some(t) || (Distance(AfterTry(s, env), t) < Distance(s, t) && AfterTry(s, env).states[t] == s.states[t])
  {
    hide FirstReady, Wrap;
    var n, d := |s.states|, Distance(s, t);
    ReachesTarget(s.next, t, n);
    assert At(s, d) == t && s.states[At(s, d)].Ready(env.clock[d]);
    var k := FirstReady(s, env.clock, 0);
    assert k <= d;
    if k < d {
      ComesCloser(s.next, t, n, k);
    }
  }

  function Tries(run: seq<Event>): nat {
    if run == [] then 0 else (if run[0].Try? then 1 else 0) + Tries(run[1..])
  }

  /** Connection t is ready whenever the scan could look at it, until it is tried. */
  predicate StaysReady(s: Scheduler, run: seq<Event>, t: nat)
    requires t < |s.states| && IsRun(s, run)
    decreases |run|
  {
    run == [] ||
    (if run[0].Try? then
       && (forall k :: 0 <= k < |s.states| ==> s.states[t].Ready(run[0].env.clock[k]))
       && (Tried(s, run[0].env) == Some(t) || StaysReady(Step(s, run[0]), run[1..], t))
     else StaysReady(Step(s, run[0]), run[1..], t))
  }

  predicate IsTried(s: Scheduler, run: seq<Event>, t: nat)
    requires t < |s.states| && IsRun(s, run)
    decreases |run|
  {
    run != [] && ((run[0].Try? && Tried(s, run[0].env) == Some(t)) || IsTried(Step(s, run[0]), run[1..], t))
  }

  /** In every run, whatever the other connections do, a connection that stays ready is tried after
      at most its distance of further calls. */
  lemma {:induction false} TriedInTime(s: Scheduler, run: seq<Event>, t: nat)
    requires t < |s.states| && IsRun(s, run) && StaysReady(s, run, t) && Tries(run) > Distance(s, t)
    ensures IsTried(s, run, t)
    decreases |run|
  {
    hide Distance, Tried, AfterTry;
    var s' := Step(s, run[0]);
    if run[0].Try? {
      TriedOrCloser(s, run[0].env, t);
      if Tried(s, run[0].env) != Some(t) { TriedInTime(s', run[1..], t); }
    } else {
      SameDistance(s, s', t);
      TriedInTime(s', run[1..], t);
    }
  }

  lemma SameDistance(s: Scheduler, s': Scheduler, t: nat)
    requires t < |s.states| == |s'.states| && s.next == s'.next
    ensures Distance(s, t) == Distance(s', t)
  {
  }

  /** With n connections, n calls are enough. */
  lemma TriedWithinN(s: Scheduler, run: seq<Event>, t: nat)
    requires t < |s.states| && IsRun(s, run) && StaysReady(s, run, t) && Tries(run) >= |s.states|
    ensures IsTried(s, run, t)
  {
    TriedInTime(s, run, t);
  }

  // ----- The code -----

  class ReconnectState {
    var delaySec: nat
    var nextRetry: Option<int>

    function View(): State
      reads this
    {
      State(delaySec, nextRetry)
    }

    constructor ()
      ensures View() == State.Reset()
    {
      delaySec, nextRetry := BASE_DELAY, None;
    }

    method ScheduleRetry(now: int)
      modifies this
      ensures View() == old(View()).Scheduled(now)
    {
      nextRetry := Some(now + delaySec);
    }

    method Backoff()
      modifies this
      ensures View() == old(View()).BackedOff()
    {
      if delaySec < BASE_DELAY {
        delaySec := BASE_DELAY;
      } else {
        delaySec := if delaySec * 2 < MAX_DELAY then delaySec * 2 else MAX_DELAY;
      }
    }

    method Reset()
      modifies this
      ensures View() == State.Reset()
    {
      delaySec, nextRetry := BASE_DELAY, None;
    }
  }

  class Connections {
    const states: seq<ReconnectState>
    var next: nat

    predicate Distinct() {
      forall i, j :: 0 <= i < j < |states| ==> states[i] != states[j]
    }

    function Views(): (v: seq<State>)
      reads states
      ensures |v| == |states|
    {
      seq(|states|, i requires 0 <= i < |states| reads states => states[i].View())
    }

    function View(): Scheduler
      reads this, states
    {
      Scheduler(Views(), next)
    }

    /** One state a connection; those not connected at the start are to be tried at once. */
    constructor (connected: seq<bool>, now: int)
      ensures Distinct() && |states| == |connected| && fresh(states) && Initial(View())
      ensures forall i :: 0 <= i < |connected| ==> Views()[i] == if connected[i] then State.Reset() else State(0, Some(now))
    {
      var made: seq<ReconnectState> := [];
      for k := 0 to |connected|
        invariant |made| == k && fresh(made) && forall i, j :: 0 <= i < j < k ==> made[i] != made[j]
        invariant forall i :: 0 <= i < k ==> made[i].View() == if connected[i] then State.Reset() else State(0, Some(now))
      {
        var rs := new ReconnectState();
        if !connected[k] { rs.delaySec, rs.nextRetry := 0, Some(now); }
        made := made + [rs];
      }
      states, next := made, 0;
    }

    /** Connect; on success forget the backoff, on failure back off and reschedule. */
    method Attempt(i: nat, env: Env) returns (ok: bool)
      requires Distinct() && i < |states|
      modifies states[i]
      ensures Views() == old(Views())[i := Attempted(old(Views())[i], env)] && ok == env.connects
    {
      var rs := states[i];
      if env.connects {
        rs.Reset();
      } else {
        rs.Backoff();
        rs.ScheduleRetry(env.later);
      }
      ok := env.connects;
    }

    /** tryOneReconnect: true when a connection was established. */
    method TryOneReconnect(env: Env) returns (ok: bool)
      requires Distinct() && |env.clock| == |states|
      modifies this, states
      ensures View() == AfterTry(old(View()), env)
      ensures ok <==> Tried(old(View()), env).Some? && env.connects
    {
      hide FirstReady, Wrap;
      var n := |states|;
      ghost var s0 := View();
      for scanned := 0 to n
        invariant Views() == s0.states
        invariant scanned == 0 ==> next == s0.next
        invariant scanned > 0 ==> next == Wrap(s0.next + scanned, n)
        invariant FirstReady(s0, env.clock, 0) == FirstReady(s0, env.clock, scanned)
      {
        var i := Wrap(next, n);
        NextIndex(s0.next, scanned, n);
        next := Wrap(next + 1, n);
        var rs := states[i];
        ScanStep(s0, env.clock, scanned);
        assert rs.View() == s0.states[i];
        if !(rs.nextRetry.Some? && env.clock[scanned] >= rs.nextRetry.value) { continue; }
        ok := Attempt(i, env);
        return;
      }
      if n > 0 { NextIndex(s0.next, 0, n); }
      ScanStep(s0, env.clock, n);
      ok := false;
    }
  }

  lemma NextIndex(next: nat, k: nat, n: nat)
    requires n > 0
    ensures Wrap(Wrap(next + k, n), n) == Wrap(next + k, n) && Wrap(Wrap(next + k, n) + 1, n) == Wrap(next + k + 1, n)
    ensures Wrap(next + n, n) == Wrap(next, n)
  {
    var q := WrapQuotient(next + k, n);
    var p := WrapQuotient(next, n);
    hide Wrap;
    var r := Wrap(next + k, n);
    WrapUnique(r, 0, r, n);
    var u := WrapQuotient(r + 1, n);
    assert (q + u) * n == q * n + u * n && (p + 1) * n == p * n + n;
    WrapUnique(next + k + 1, q + u, Wrap(r + 1, n), n);
    WrapUnique(next + n, p + 1, Wrap(next, n), n);
  }

  lemma ScanStep(s: Scheduler, clock: seq<int>, k: nat)
    requires |clock| == |s.states| && k <= |s.states|
    ensures FirstReady(s, clock, k) == if k == |s.states| || s.states[At(s, k)].Ready(clock[k]) then k else FirstReady(s, clock, k + 1)
  {
  }
}

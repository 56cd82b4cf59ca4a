/** Reference counting with get-unless-zero and put by any number of threads, in any interleaving. */
module RefcountLifetime {
  import opened CasRetry
  import opened Common

  /** Inside a get a thread is at the head of the retry loop with its saved value. */
  datatype Pc = Idle | Retry(saved: int)

  datatype Thread = Thread(pc: Pc, held: nat)

  /** scheduled counts how often destruction was handed to call_rcu. */
  datatype State = State(refs: int, threads: seq<Thread>, scheduled: nat)

  /** The atomic steps: the initial read of a get, its exit on zero, one exchange, and a put. */
  datatype Action = Read(t: nat) | Exit(t: nat) | Exchange(t: nat) | Put(t: nat)

  predicate Enabled(s: State, a: Action) {
    a.t < |s.threads| &&
    var th := s.threads[a.t];
    match a
    case Read(_) => th.pc == Idle
    case Exit(_) => th.pc == Retry(0)
    case Exchange(_) => th.pc.Retry? && th.pc.saved != 0
    case Put(_) => th.pc == Idle && th.held > 0
  }

  /** The exchange of this step stores its value. */
  predicate Acquires(s: State, a: Action)
    requires Enabled(s, a)
  {
    a.Exchange? && s.refs == s.threads[a.t].pc.saved
  }

  function Apply(s: State, a: Action): (s': State)
    requires Enabled(s, a)
    ensures |s'.threads| == |s.threads|
  {
    var th := s.threads[a.t];
    match a
    case Read(t) => s.(threads := s.threads[t := th.(pc := Retry(s.refs))])
    case Exit(t) => s.(threads := s.threads[t := th.(pc := Idle)])
    case Exchange(t) =>
      if s.refs == th.pc.saved then
        s.(refs := th.pc.saved + 1, threads := s.threads[t := Thread(Idle, th.held + 1)])
      else
        s.(threads := s.threads[t := th.(pc := Retry(s.refs))])
    case Put(t) =>
      var was := s.refs;
      State(was - 1, s.threads[t := th.(held := th.held - 1)],
            if was > 0 && was == 1 then s.scheduled + 1 else s.scheduled)
  }

  /** One reference, held by the creating thread. */
  predicate Initial(s: State, creator: nat) {
    s.refs == 1 && s.scheduled == 0 && creator < |s.threads| &&
    forall t | 0 <= t < |s.threads| :: s.threads[t] == Thread(Idle, if t == creator then 1 else 0)
  }

  predicate IsRun(s: State, acts: seq<Action>)
    decreases acts
  {
    acts == [] || (Enabled(s, acts[0]) && IsRun(Apply(s, acts[0]), acts[1..]))
  }

  function Final(s: State, acts: seq<Action>): State
    requires IsRun(s, acts)
    decreases acts
  {
    if acts == [] then s else Final(Apply(s, acts[0]), acts[1..])
  }

  // ----- lifetime

  function Holders(threads: seq<Thread>): nat {
    if threads == [] then 0 else threads[0].held + Holders(threads[1..])
  }

  /** The counter is the number of references held; destruction is scheduled once it is zero. */
  predicate Inv(s: State) {
    s.refs == Holders(s.threads) && s.scheduled == if s.refs == 0 then 1 else 0
  }

  lemma {:induction false} HoldersUpdate(threads: seq<Thread>, t: nat, th: Thread)
    requires t < |threads|
    ensures Holders(threads[t := th]) == Holders(threads) - threads[t].held + th.held
  {
    if t == 0 {
      assert threads[0 := th][1..] == threads[1..];
    } else {
      assert threads[t := th][1..] == threads[1..][t - 1 := th];
      HoldersUpdate(threads[1..], t - 1, th);
    }
  }

  lemma {:induction false} HoldersAtLeast(threads: seq<Thread>, t: nat)
    requires t < |threads|
    ensures threads[t].held <= Holders(threads)
  {
    if t > 0 {
      HoldersAtLeast(threads[1..], t - 1);
    }
  }

  lemma {:induction false} HoldersInitial(threads: seq<Thread>, creator: nat)
    requires forall t | 0 <= t < |threads| :: threads[t].held == if t == creator then 1 else 0
    ensures Holders(threads) == if creator < |threads| then 1 else 0
  {
    if threads != [] {
      if creator == 0 {
        NoHolders(threads[1..]);
      } else {
        HoldersInitial(threads[1..], creator - 1);
      }
    }
  }

  lemma {:induction false} NoHolders(threads: seq<Thread>)
    requires forall t | 0 <= t < |threads| :: threads[t].held == 0
    ensures Holders(threads) == 0
  {
    if threads != [] {
      NoHolders(threads[1..]);
    }
  }

  /** Destruction is scheduled by a step exactly when it takes the counter from one to zero. */
  lemma StepInv(s: State, a: Action)
    requires Inv(s) && Enabled(s, a)
    ensures Inv(Apply(s, a))
    ensures Apply(s, a).scheduled == s.scheduled + if s.refs == 1 && Apply(s, a).refs == 0 then 1 else 0
    ensures s.refs == 0 ==> Apply(s, a).refs == 0 && !Acquires(s, a) && !a.Put?
  {
    HoldersUpdate(s.threads, a.t, Apply(s, a).threads[a.t]);
    HoldersAtLeast(s.threads, a.t);
  }

  /** How many steps of a run schedule destruction. */
  function Destructions(s: State, acts: seq<Action>): nat
    requires IsRun(s, acts)
    decreases acts
  {
    if acts == [] then 0
    else
      var s' := Apply(s, acts[0]);
      (if s.refs == 1 && s'.refs == 0 then 1 else 0) + Destructions(s', acts[1..])
  }

  lemma {:induction false} RunInv(s: State, acts: seq<Action>)
    requires Inv(s) && IsRun(s, acts)
    ensures Inv(Final(s, acts)) && Final(s, acts).scheduled == s.scheduled + Destructions(s, acts)
    decreases acts
  {
    if acts != [] {
      StepInv(s, acts[0]);
      RunInv(Apply(s, acts[0]), acts[1..]);
    }
  }

  /** Every run of every number of threads: the counter is the number of references held, never
      negative, and destruction is scheduled at most once, exactly when nothing is held any more. */
  lemma Lifetime(s: State, creator: nat, acts: seq<Action>)
    requires Initial(s, creator) && IsRun(s, acts)
    ensures var e := Final(s, acts);
      e.refs == Holders(e.threads) && Destructions(s, acts) == e.scheduled <= 1 &&
      (e.scheduled == 1 <==> Holders(e.threads) == 0)
  {
    HoldersInitial(s.threads, creator);
    RunInv(s, acts);
  }

  /** How many gets of a run store their reference. */
  function Acquisitions(s: State, acts: seq<Action>): nat
    requires IsRun(s, acts)
    decreases acts
  {
    if acts == [] then 0
    else (if Acquires(s, acts[0]) then 1 else 0) + Acquisitions(Apply(s, acts[0]), acts[1..])
  }

  function Puts(acts: seq<Action>): nat {
    if acts == [] then 0 else (if acts[0].Put? then 1 else 0) + Puts(acts[1..])
  }

  /** Conservation: only gets that succeed and puts move the counter, each by one. */
  lemma {:induction false} Conservation(s: State, acts: seq<Action>)
    requires IsRun(s, acts)
    ensures Final(s, acts).refs == s.refs + Acquisitions(s, acts) - Puts(acts)
    decreases acts
  {
    if acts != [] {
      Conservation(Apply(s, acts[0]), acts[1..]);
    }
  }

  /** From one reference, the object is released exactly when every reference ever taken was put; with
      a single put, no run both releases the object and lets a get succeed. */
  lemma PutVersusGet(s: State, creator: nat, acts: seq<Action>)
    requires Initial(s, creator) && IsRun(s, acts)
    ensures Final(s, acts).scheduled == 1 <==> Puts(acts) == 1 + Acquisitions(s, acts)
    ensures Puts(acts) <= 1 ==> !(Final(s, acts).scheduled == 1 && Acquisitions(s, acts) > 0)
  {
    Lifetime(s, creator, acts);
    Conservation(s, acts);
  }

  /** After release, whatever nonzero values threads still have saved, no get succeeds and the
      counter stays zero. */
  lemma {:induction false} ReleasedForever(s: State, acts: seq<Action>)
    requires Inv(s) && s.refs == 0 && IsRun(s, acts)
    ensures Final(s, acts).refs == 0 && Final(s, acts).scheduled == 1 && Acquisitions(s, acts) == 0
    decreases acts
  {
    if acts != [] {
      StepInv(s, acts[0]);
      ReleasedForever(Apply(s, acts[0]), acts[1..]);
    }
  }

  /** The unsafe control: a get that increments without looking. */
  function UnconditionalGet(s: State, t: nat): State
    requires t < |s.threads|
  {
    s.(refs := s.refs + 1, threads := s.threads[t := s.threads[t].(held := s.threads[t].held + 1)])
  }

  /** After the final put it resurrects, for whichever thread, an object whose destruction is scheduled,
      which no safe run does. */
  lemma Resurrection(s: State, creator: nat, t: nat)
    requires Initial(s, creator) && t < |s.threads|
    ensures Enabled(s, Put(creator)) &&
      var e := UnconditionalGet(Apply(s, Put(creator)), t);
      e.scheduled == 1 && e.refs == 1 && e.threads[t].held == 1 && !Inv(e)
  {}

  // ----- what no interference prevents

  lemma TwoSteps(s: State, a: Action, b: Action)
    requires Enabled(s, a) && Enabled(Apply(s, a), b)
    ensures IsRun(s, [a, b]) && Final(s, [a, b]) == Apply(Apply(s, a), b)
  {
    var s' := Apply(s, a);
    assert [a, b][1..] == [b] && [b][1..] == [];
    assert IsRun(s', [b]) && Final(s', [b]) == Apply(s', b);
  }

  lemma ReadStep(s: State, t: nat)
    requires t < |s.threads| && s.threads[t].pc == Idle
    ensures Apply(s, Read(t)) == s.(threads := s.threads[t := Thread(Retry(s.refs), s.threads[t].held)])
  {}

  /** A get without interference acquires from a nonzero counter. */
  lemma GetAcquires(s: State, t: nat)
    requires t < |s.threads| && s.threads[t].pc == Idle && s.refs != 0
    ensures IsRun(s, [Read(t), Exchange(t)]) && Acquires(Apply(s, Read(t)), Exchange(t))
    ensures Final(s, [Read(t), Exchange(t)]) ==
      State(s.refs + 1, s.threads[t := Thread(Idle, s.threads[t].held + 1)], s.scheduled)
  {
    ReadStep(s, t);
    TwoSteps(s, Read(t), Exchange(t));
  }

  /** It exits from zero, and changes nothing. */
  lemma GetExits(s: State, t: nat)
    requires t < |s.threads| && s.threads[t].pc == Idle && s.refs == 0
    ensures IsRun(s, [Read(t), Exit(t)]) && Final(s, [Read(t), Exit(t)]) == s
  {
    ReadStep(s, t);
    TwoSteps(s, Read(t), Exit(t));
  }

  /** An idle holder can always put, which gives back one reference, and destruction is scheduled exactly
      when it was the last. */
  lemma PutAlone(s: State, t: nat)
    requires t < |s.threads| && s.threads[t].pc == Idle && s.threads[t].held > 0
    ensures Enabled(s, Put(t)) &&
      Apply(s, Put(t)) == State(s.refs - 1, s.threads[t := Thread(Idle, s.threads[t].held - 1)],
                                s.scheduled + if s.refs == 1 then 1 else 0)
  {}

  /** No thread is ever stuck: in every state it has a step, inside a get as well. */
  lemma NeverStuck(s: State, t: nat)
    requires t < |s.threads|
    ensures exists a: Action :: a.t == t && Enabled(s, a)
  {
    var a := match s.threads[t].pc
      case Idle => Read(t)
      case Retry(saved) => if saved == 0 then Exit(t) else Exchange(t);
    assert Enabled(s, a);
  }

  // ----- one thread's get as a schedule

  /** The counter values the exchanges of thread t meet until its get ends. */
  function Observed(s: State, acts: seq<Action>, t: nat): seq<int>
    requires IsRun(s, acts)
    decreases acts
  {
    if acts == [] || acts[0] == Exit(t) then []
    else
      var rest := if acts[0] == Exchange(t) && Acquires(s, acts[0]) then []
                  else Observed(Apply(s, acts[0]), acts[1..], t);
      if acts[0] == Exchange(t) then [s.refs] + rest else rest
  }

  /** How the get of thread t ends, if it does. */
  function Ending(s: State, acts: seq<Action>, t: nat): Option<Outcome>
    requires IsRun(s, acts)
    decreases acts
  {
    if acts == [] then None
    else if acts[0] == Exit(t) then Some(ZeroExit)
    else if acts[0] == Exchange(t) && Acquires(s, acts[0]) then Some(Successful)
    else Ending(Apply(s, acts[0]), acts[1..], t)
  }

  /** The steps at which exchanges of thread t fail, until its get ends. */
  function Fails(s: State, acts: seq<Action>, t: nat): (f: seq<nat>)
    requires IsRun(s, acts)
    decreases acts
  {
    if acts == [] || acts[0] == Exit(t) || (acts[0] == Exchange(t) && Acquires(s, acts[0])) then []
    else
      var rest := Later1(Fails(Apply(s, acts[0]), acts[1..], t));
      if acts[0] == Exchange(t) then [0] + rest else rest
  }

  function Later1(f: seq<nat>): (r: seq<nat>)
    ensures |r| == |f| && forall i | 0 <= i < |f| :: r[i] == f[i] + 1
  {
    seq(|f|, i requires 0 <= i < |f| => f[i] + 1)
  }

  /** In any interleaving the get behaves as the simulator does on the values it observed, starting
      from the value it read: the same outcome, attempts and failures. */
  lemma {:induction false} GetIsSimulated(s: State, acts: seq<Action>, t: nat)
    requires IsRun(s, acts) && t < |s.threads| && s.threads[t].pc.Retry? && Ending(s, acts, t).Some?
    ensures var v, obs := s.threads[t].pc.saved, Observed(s, acts, t);
      var r := Simulate(v, v, obs, 1, true);
      r.Finished? && r.outcome == Ending(s, acts, t).value &&
      r.attempts == |obs| && r.failures == |Fails(s, acts, t)|
    decreases acts
  {
    var a, s' := acts[0], Apply(s, acts[0]);
    var obs := Observed(s, acts, t);
    if a.t == t {
      if a.Exchange? {
        if !Acquires(s, a) {
          GetIsSimulated(s', acts[1..], t);
          assert obs[1..] == Observed(s', acts[1..], t);
        }
      }
    } else {
      assert s'.threads[t] == s.threads[t];
      GetIsSimulated(s', acts[1..], t);
    }
  }

  // ----- why an exchange fails

  /** The state after the first k steps. */
  function At(s: State, acts: seq<Action>, k: nat): State
    requires IsRun(s, acts) && k <= |acts|
    decreases acts
  {
    if k == 0 then s else At(Apply(s, acts[0]), acts[1..], k - 1)
  }

  /** Step k is another thread's and changes the counter. */
  predicate ChangedByOther(s: State, acts: seq<Action>, t: nat, k: nat)
    requires IsRun(s, acts)
  {
    k < |acts| && acts[k].t != t && At(s, acts, k).refs != At(s, acts, k + 1).refs
  }

  /** Thread t's saved value is no longer the counter's. */
  predicate Behind(s: State, t: nat) {
    t < |s.threads| && s.threads[t].pc.Retry? && s.refs != s.threads[t].pc.saved
  }

  /** Step c is a counter change by another thread between failure i - 1 and failure i; -1 stands
      for a change before the run. */
  predicate ChargedAt(s: State, acts: seq<Action>, t: nat, f: seq<nat>, i: nat, c: int)
    requires IsRun(s, acts) && i < |f|
  {
    c < f[i] && (i > 0 ==> f[i - 1] < c) &&
    if c >= 0 then ChangedByOther(s, acts, t, c) else c == -1 && i == 0 && Behind(s, t)
  }

  predicate Charged(s: State, acts: seq<Action>, t: nat, f: seq<nat>, charge: seq<int>)
    requires IsRun(s, acts)
  {
    |charge| == |f| && forall i | 0 <= i < |f| :: ChargedAt(s, acts, t, f, i, charge[i])
  }

  lemma ChangedNext(s: State, acts: seq<Action>, t: nat, k: nat)
    requires IsRun(s, acts) && acts != []
    ensures ChangedByOther(s, acts, t, k + 1) <==> ChangedByOther(Apply(s, acts[0]), acts[1..], t, k)
  {}

  lemma ChangedFirst(s: State, acts: seq<Action>, t: nat)
    requires IsRun(s, acts) && acts != []
    ensures ChangedByOther(s, acts, t, 0) <==> acts[0].t != t && s.refs != Apply(s, acts[0]).refs
  {
    assert At(s, acts, 1) == At(Apply(s, acts[0]), acts[1..], 0);
  }

  /** A charge of the run from the next state on, seen from this one. */
  lemma ShiftOther(s: State, acts: seq<Action>, t: nat, g: seq<nat>, i: nat, c: int)
    requires IsRun(s, acts) && acts != [] && acts[0].t != t && t < |s.threads| && i < |g|
    requires ChargedAt(Apply(s, acts[0]), acts[1..], t, g, i, c)
    ensures ChargedAt(s, acts, t, Later1(g), i, if c == -1 && s.refs == Apply(s, acts[0]).refs then -1 else c + 1)
  {
    if c >= 0 {
      ChangedNext(s, acts, t, c);
    } else {
      assert Apply(s, acts[0]).threads[t] == s.threads[t];
      ChangedFirst(s, acts, t);
    }
  }

  lemma ShiftOwn(s: State, acts: seq<Action>, t: nat, g: seq<nat>, i: nat, c: int)
    requires IsRun(s, acts) && acts != [] && t < |s.threads| && acts[0] == Exchange(t) && !Acquires(s, acts[0])
    requires i < |g| && ChargedAt(Apply(s, acts[0]), acts[1..], t, g, i, c)
    ensures ChargedAt(s, acts, t, [0] + Later1(g), i + 1, c + 1)
  {
    assert !Behind(Apply(s, acts[0]), t);
    ChangedNext(s, acts, t, c);
  }

  lemma FailsStep(s: State, acts: seq<Action>, t: nat)
    requires IsRun(s, acts) && t < |s.threads| && s.threads[t].pc.Retry? && Fails(s, acts, t) != []
    ensures acts != [] && var s', g := Apply(s, acts[0]), Fails(Apply(s, acts[0]), acts[1..], t);
      s'.threads[t].pc.Retry? &&
      if acts[0].t == t then acts[0] == Exchange(t) && !Acquires(s, acts[0]) && Fails(s, acts, t) == [0] + Later1(g)
      else Fails(s, acts, t) == Later1(g)
  {}

  lemma ChargeOwn(s: State, acts: seq<Action>, t: nat, g: seq<nat>, inner: seq<int>) returns (charge: seq<int>)
    requires IsRun(s, acts) && acts != [] && t < |s.threads| && acts[0] == Exchange(t) && !Acquires(s, acts[0])
    requires Charged(Apply(s, acts[0]), acts[1..], t, g, inner)
    ensures Charged(s, acts, t, [0] + Later1(g), charge)
  {
    charge := [-1] + seq(|g|, i requires 0 <= i < |g| => inner[i] + 1);
    forall i | 0 < i <= |g| ensures ChargedAt(s, acts, t, [0] + Later1(g), i, charge[i]) {
      ShiftOwn(s, acts, t, g, i - 1, inner[i - 1]);
    }
  }

  lemma ChargeOther(s: State, acts: seq<Action>, t: nat, g: seq<nat>, inner: seq<int>) returns (charge: seq<int>)
    requires IsRun(s, acts) && acts != [] && acts[0].t != t && t < |s.threads|
    requires Charged(Apply(s, acts[0]), acts[1..], t, g, inner)
    ensures Charged(s, acts, t, Later1(g), charge)
  {
    var same := s.refs == Apply(s, acts[0]).refs;
    charge := seq(|g|, i requires 0 <= i < |g| => if inner[i] == -1 && same then -1 else inner[i] + 1);
    forall i | 0 <= i < |g| ensures ChargedAt(s, acts, t, Later1(g), i, charge[i]) {
      ShiftOther(s, acts, t, g, i, inner[i]);
    }
  }

  /** Failures of one get can be charged to distinct changes made by other threads, each between the
      previous failure and the one charged. */
  lemma {:induction false} ChargeFailures(s: State, acts: seq<Action>, t: nat) returns (charge: seq<int>)
    requires IsRun(s, acts) && t < |s.threads| && s.threads[t].pc.Retry?
    ensures Charged(s, acts, t, Fails(s, acts, t), charge)
    decreases acts
  {
    if Fails(s, acts, t) == [] {
      return [];
    }
    FailsStep(s, acts, t);
    var s', rest := Apply(s, acts[0]), acts[1..];
    var inner := ChargeFailures(s', rest, t);
    if acts[0].t == t {
      charge := ChargeOwn(s, acts, t, Fails(s', rest, t), inner);
    } else {
      charge := ChargeOther(s, acts, t, Fails(s', rest, t), inner);
    }
  }

  /** A get fails at most once for each counter change by another thread after its initial read: every
      failure is charged to a change before it and after the previous failure, all of them distinct. */
  lemma FailuresNeedChanges(s: State, acts: seq<Action>, t: nat) returns (charge: seq<int>)
    requires acts != [] && acts[0] == Read(t) && IsRun(s, acts)
    ensures var s', rest := Apply(s, acts[0]), acts[1..];
      var f := Fails(s', rest, t);
      |charge| == |f| &&
      (forall i | 0 <= i < |charge| ::
         0 <= charge[i] < f[i] && (i > 0 ==> f[i - 1] < charge[i]) && ChangedByOther(s', rest, t, charge[i])) &&
      forall i, j | 0 <= i < j < |charge| :: charge[i] < charge[j]
  {
    var s', rest := Apply(s, acts[0]), acts[1..];
    charge := ChargeFailures(s', rest, t);
    var f := Fails(s', rest, t);
    forall i | 0 <= i < |charge|
      ensures 0 <= charge[i] < f[i] && (i > 0 ==> f[i - 1] < charge[i]) && ChangedByOther(s', rest, t, charge[i])
    {
      assert ChargedAt(s', rest, t, f, i, charge[i]);
    }
    Increasing(f, charge);
  }

  lemma {:induction false} Increasing(f: seq<nat>, charge: seq<int>)
    requires |charge| == |f| && forall i | 0 <= i < |f| :: charge[i] < f[i] && (i > 0 ==> f[i - 1] < charge[i])
    ensures forall i, j | 0 <= i < j < |charge| :: charge[i] < charge[j]
  {
    if charge != [] {
      var n := |charge| - 1;
      Increasing(f[..n], charge[..n]);
      forall i | 0 <= i < n ensures charge[i] < charge[n] {
        assert charge[..n][i] <= charge[..n][n - 1];
      }
    }
  }
}

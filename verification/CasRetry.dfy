/** The get-unless-zero retry loop under a finite schedule of interfering counter values. */
module CasRetry {

  datatype Outcome = Successful | ZeroExit | Nonterminating

  datatype Result =
    | Finished(outcome: Outcome, attempts: nat, failures: nat, refs: int, expected: int)
    | Disagrees  // "updated expected value disagrees with quiescent counter"

  /** The same result with more attempts and failures before it. */
  function Later(r: Result, attempts: nat, failures: nat): Result {
    match r
    case Disagrees => Disagrees
    case Finished(o, a, f, refs, expected) => Finished(o, attempts + a, failures + f, refs, expected)
  }

  /** The loop from a head with the given counter and saved value on. */
  function Simulate(refs: int, expected: int, schedule: seq<int>, increment: int, update: bool): Result
    decreases schedule
  {
    if expected == 0 then Finished(ZeroExit, 0, 0, refs, expected)
    else if schedule == [] then
      if refs == expected then Finished(Successful, 1, 0, expected + increment, expected)
      else if update then Disagrees
      else Finished(Nonterminating, 1, 1, refs, expected)
    else
      var observed := schedule[0];
      if observed == expected then Finished(Successful, 1, 0, expected + increment, expected)
      else Later(Simulate(observed, if update then observed else expected, schedule[1..], increment, update), 1, 1)
  }

  datatype Event =
    | InitialRead(refs: int, expected: int)
    | Interference(refs: int, expected: int)
    | Mismatch(refs: int, before: int, expected: int)
    | CasSuccess(refs: int, expected: int)
    | ZeroSeen(refs: int, expected: int)
    | QuiescentSuccess(refs: int, expected: int)
    | QuiescentZero(refs: int, expected: int)
    | StaleCycle(refs: int, expected: int)

  /** The events from a loop head on. */
  function Trace(refs: int, expected: int, schedule: seq<int>, increment: int, update: bool): seq<Event>
    decreases schedule
  {
    if schedule == [] then
      if expected == 0 then [QuiescentZero(refs, expected)]
      else if refs == expected then [QuiescentSuccess(expected + increment, expected)]
      else if update then []
      else [StaleCycle(refs, expected)]
    else if expected == 0 then [ZeroSeen(refs, expected)]
    else
      var observed := schedule[0];
      var next := if update then observed else expected;
      [Interference(observed, expected)] +
      if observed == expected then [CasSuccess(expected + increment, expected)]
      else [Mismatch(observed, expected, next)] + Trace(observed, next, schedule[1..], increment, update)
  }

  lemma TraceStep(refs: int, expected: int, schedule: seq<int>, increment: int, update: bool, before: seq<Event>)
    requires schedule != [] && expected != 0
    ensures var observed, next := schedule[0], if update then schedule[0] else expected;
      before + Trace(refs, expected, schedule, increment, update) ==
      before + [Interference(observed, expected)] +
      if observed == expected then [CasSuccess(expected + increment, expected)]
      else [Mismatch(observed, expected, next)] + Trace(observed, next, schedule[1..], increment, update)
  {}

  lemma Regroup(a: seq<Event>, b: seq<Event>, c: seq<Event>)
    ensures a + (b + c) == a + b + c
  {}

  method SimulateBoundedSchedule(initial: int, schedule: seq<int>, increment: int, update: bool)
    returns (r: Result, trace: seq<Event>)
    ensures r == Simulate(initial, initial, schedule, increment, update)
    ensures trace == [InitialRead(initial, initial)] + Trace(initial, initial, schedule, increment, update)
  {
    var refs, expected, attempts, failures := initial, initial, 0, 0;
    trace := [InitialRead(refs, expected)];
    ghost var whole := trace + Trace(initial, initial, schedule, increment, update);
    for i := 0 to |schedule|
      invariant attempts >= 0 && failures >= 0
      invariant Simulate(initial, initial, schedule, increment, update) ==
                Later(Simulate(refs, expected, schedule[i..], increment, update), attempts, failures)
      invariant whole == trace + Trace(refs, expected, schedule[i..], increment, update)
    {
      if expected == 0 {
        trace := trace + [ZeroSeen(refs, expected)];
        return Finished(ZeroExit, attempts, failures, refs, expected), trace;
      }
      var observed := schedule[i];
      assert schedule[i..][1..] == schedule[i + 1..];
      TraceStep(refs, expected, schedule[i..], increment, update, trace);
      refs := observed;
      trace := trace + [Interference(refs, expected)];
      attempts := attempts + 1;
      if refs == expected {
        refs := expected + increment;
        trace := trace + [CasSuccess(refs, expected)];
        return Finished(Successful, attempts, failures, refs, expected), trace;
      }
      failures := failures + 1;
      var previous := expected;
      if update {
        expected := refs;
      }
      Regroup(trace, [Mismatch(refs, previous, expected)], Trace(refs, expected, schedule[i + 1..], increment, update));
      trace := trace + [Mismatch(refs, previous, expected)];
    }
    if expected == 0 {
      trace := trace + [QuiescentZero(refs, expected)];
      return Finished(ZeroExit, attempts, failures, refs, expected), trace;
    }
    attempts := attempts + 1;
    if refs == expected {
      refs := expected + increment;
      trace := trace + [QuiescentSuccess(refs, expected)];
      return Finished(Successful, attempts, failures, refs, expected), trace;
    }
    if update {
      return Disagrees, trace;
    }
    failures := failures + 1;
    trace := trace + [StaleCycle(refs, expected)];
    return Finished(Nonterminating, attempts, failures, refs, expected), trace;
  }

  /** The events that report a failed exchange. */
  function FailureEvents(trace: seq<Event>): nat {
    if trace == [] then 0
    else (if trace[0].Mismatch? || trace[0].StaleCycle? then 1 else 0) + FailureEvents(trace[1..])
  }

  /** The trace accounts for a result: one event for every failure, the final counter and saved value in
      its last event, and after every mismatch the saved value is the counter exactly when it is updated. */
  predicate Accounts(t: seq<Event>, failures: nat, refs: int, expected: int, update: bool) {
    t != [] && FailureEvents(t) == failures && t[|t| - 1].refs == refs && t[|t| - 1].expected == expected &&
    forall i | 0 <= i < |t| && t[i].Mismatch? :: t[i].refs != t[i].before && (t[i].expected == t[i].refs <==> update)
  }

  lemma AccountsCons(e: Event, t: seq<Event>, failures: nat, refs: int, expected: int, update: bool)
    requires Accounts(t, failures, refs, expected, update) && !e.StaleCycle?
    requires e.Mismatch? ==> e.refs != e.before && (e.expected == e.refs <==> update)
    ensures Accounts([e] + t, failures + if e.Mismatch? then 1 else 0, refs, expected, update)
  {
    assert ([e] + t)[1..] == t;
  }

  lemma {:induction false} TraceTells(refs: int, expected: int, schedule: seq<int>, increment: int, update: bool)
    requires Simulate(refs, expected, schedule, increment, update).Finished?
    ensures var r := Simulate(refs, expected, schedule, increment, update);
      Accounts(Trace(refs, expected, schedule, increment, update), r.failures, r.refs, r.expected, update)
    decreases schedule
  {
    if expected != 0 && schedule != [] && schedule[0] == expected {
      AccountsCons(Interference(expected, expected), [CasSuccess(expected + increment, expected)], 0,
                   expected + increment, expected, update);
    } else if expected != 0 && schedule != [] {
      var observed, next := schedule[0], if update then schedule[0] else expected;
      TraceTells(observed, next, schedule[1..], increment, update);
      var r, t := Simulate(observed, next, schedule[1..], increment, update),
        Trace(observed, next, schedule[1..], increment, update);
      AccountsCons(Mismatch(observed, expected, next), t, r.failures, r.refs, r.expected, update);
      AccountsCons(Interference(observed, expected), [Mismatch(observed, expected, next)] + t, r.failures + 1,
                   r.refs, r.expected, update);
    }
  }

  /** The values the trace reports as seen, in order. */
  function Seen(trace: seq<Event>): seq<int> {
    if trace == [] then []
    else (if trace[0].Interference? then [trace[0].refs] else []) + Seen(trace[1..])
  }

  predicate Terminal(e: Event) {
    e.CasSuccess? || e.ZeroSeen? || e.QuiescentSuccess? || e.QuiescentZero? || e.StaleCycle?
  }

  /** What the trace reports as seen is the schedule, up to where the loop ends; the last event alone ends
      it, and says how: on an interfering value, before one, or when the interference is over. */
  predicate TracesSchedule(t: seq<Event>, schedule: seq<int>, attempts: nat, outcome: Outcome) {
    var n := |Seen(t)|;
    t != [] && n <= |schedule| && Seen(t) == schedule[..n] &&
    (forall i | 0 <= i < |t| - 1 :: !Terminal(t[i])) &&
    match t[|t| - 1]
    case CasSuccess(_, _) => outcome == Successful && attempts == n > 0
    case QuiescentSuccess(_, _) => outcome == Successful && attempts == n + 1 && n == |schedule|
    case ZeroSeen(_, _) => outcome == ZeroExit && attempts == n < |schedule|
    case QuiescentZero(_, _) => outcome == ZeroExit && attempts == n == |schedule|
    case StaleCycle(_, _) => outcome == Nonterminating && attempts == n + 1 && n == |schedule|
    case _ => false
  }

  lemma TracesCons(i: Event, m: Event, t: seq<Event>, schedule: seq<int>, attempts: nat, outcome: Outcome)
    requires i.Interference? && m.Mismatch? && schedule != [] && i.refs == schedule[0]
    requires TracesSchedule(t, schedule[1..], attempts, outcome)
    ensures TracesSchedule([i] + ([m] + t), schedule, attempts + 1, outcome)
  {
    var u := [i] + ([m] + t);
    assert u[1..] == [m] + t && ([m] + t)[1..] == t;
    assert Seen(u) == [i.refs] + Seen(t);
    forall k | 0 <= k < |u| - 1 ensures !Terminal(u[k]) {
      assert k >= 2 ==> u[k] == t[k - 2];
    }
    assert u[|u| - 1] == t[|t| - 1];
  }

  lemma TracesHit(i: Event, e: Event, schedule: seq<int>)
    requires i.Interference? && e.CasSuccess? && schedule != [] && i.refs == schedule[0]
    ensures TracesSchedule([i] + [e], schedule, 1, Successful)
  {
    var t := [i] + [e];
    assert t[1..] == [e] && [e][1..] == [];
    assert Seen([e]) == [];
    assert Seen(t) == [i.refs] + Seen([e]);
  }

  lemma TracesEnd(e: Event, schedule: seq<int>, attempts: nat, outcome: Outcome)
    requires match e
      case ZeroSeen(_, _) => schedule != [] && attempts == 0 && outcome == ZeroExit
      case QuiescentZero(_, _) => schedule == [] && attempts == 0 && outcome == ZeroExit
      case QuiescentSuccess(_, _) => schedule == [] && attempts == 1 && outcome == Successful
      case StaleCycle(_, _) => schedule == [] && attempts == 1 && outcome == Nonterminating
      case _ => false
    ensures TracesSchedule([e], schedule, attempts, outcome)
  {
    assert [e][1..] == [];
  }

  lemma {:induction false} TraceIsSchedule(refs: int, expected: int, schedule: seq<int>, increment: int, update: bool)
    requires Simulate(refs, expected, schedule, increment, update).Finished?
    ensures var r := Simulate(refs, expected, schedule, increment, update);
      TracesSchedule(Trace(refs, expected, schedule, increment, update), schedule, r.attempts, r.outcome)
    decreases schedule
  {
    if expected != 0 && schedule != [] && schedule[0] == expected {
      TracesHit(Interference(expected, expected), CasSuccess(expected + increment, expected), schedule);
    } else if expected == 0 || schedule == [] {
      var r := Simulate(refs, expected, schedule, increment, update);
      TracesEnd(Trace(refs, expected, schedule, increment, update)[0], schedule, r.attempts, r.outcome);
    } else {
      var observed, next := schedule[0], if update then schedule[0] else expected;
      TraceIsSchedule(observed, next, schedule[1..], increment, update);
      var r, t := Simulate(observed, next, schedule[1..], increment, update),
        Trace(observed, next, schedule[1..], increment, update);
      TracesCons(Interference(observed, expected), Mismatch(observed, expected, next), t, schedule, r.attempts, r.outcome);
    }
  }

  // ----- the loop that updates its saved value

  /** The value saved at the k-th loop head when every earlier exchange failed. */
  function Head(initial: int, schedule: seq<int>, k: nat): int
    requires k <= |schedule|
  {
    if k == 0 then initial else schedule[k - 1]
  }

  /** The loop leaves at its k-th head: the saved value is zero, or it is seen again, or the
      interference is over. */
  predicate Leaves(initial: int, schedule: seq<int>, k: nat)
    requires k <= |schedule|
  {
    Head(initial, schedule, k) == 0 || k == |schedule| || schedule[k] == Head(initial, schedule, k)
  }

  /** The first head the loop leaves at, which is also how often its exchange fails. */
  function Stop(initial: int, schedule: seq<int>): (k: nat)
    ensures k <= |schedule| && Leaves(initial, schedule, k)
    ensures forall j | 0 <= j < k :: !Leaves(initial, schedule, j)
    decreases schedule
  {
    if Leaves(initial, schedule, 0) then 0
    else
      var k := 1 + Stop(schedule[0], schedule[1..]);
      assert forall j | 1 <= j <= k :: Head(initial, schedule, j) == Head(schedule[0], schedule[1..], j - 1);
      assert forall j | 1 <= j < k :: Leaves(initial, schedule, j) == Leaves(schedule[0], schedule[1..], j - 1);
      k
  }

  /** Every schedule ends the updating loop, without the disagreement error: it fails once before
      each head it does not leave at, and then exits on zero or succeeds. */
  lemma {:induction false} UpdatingOutcome(initial: int, schedule: seq<int>, increment: int)
    ensures var k := Stop(initial, schedule);
      var v := Head(initial, schedule, k);
      Simulate(initial, initial, schedule, increment, true) ==
      if v == 0 then Finished(ZeroExit, k, k, 0, 0) else Finished(Successful, k + 1, k, v + increment, v)
    decreases schedule
  {
    if !Leaves(initial, schedule, 0) {
      UpdatingOutcome(schedule[0], schedule[1..], increment);
      var k := Stop(schedule[0], schedule[1..]);
      assert Head(initial, schedule, k + 1) == Head(schedule[0], schedule[1..], k);
    }
  }

  /** At most one failure per observation, and one more attempt. */
  lemma UpdatingBound(initial: int, schedule: seq<int>, increment: int)
    ensures var r := Simulate(initial, initial, schedule, increment, true);
      r.Finished? && r.outcome != Nonterminating && r.failures <= |schedule| && r.attempts <= |schedule| + 1
  {
    UpdatingOutcome(initial, schedule, increment);
  }

  /** n interfering values that are never the one just saved. */
  function Alternating(a: int, b: int, n: nat): (s: seq<int>)
    ensures |s| == n && forall i | 0 <= i < n :: s[i] == if i % 2 == 0 then b else a
  {
    seq(n, i => if i % 2 == 0 then b else a)
  }

  /** The bound is attained for every n as soon as there are two nonzero values, so no bound holds
      for all schedules. */
  lemma BoundAttained(a: int, b: int, n: nat, increment: int)
    requires a != b && a != 0 && b != 0
    ensures var r := Simulate(a, a, Alternating(a, b, n), increment, true);
      r.Finished? && r.outcome == Successful && r.attempts == n + 1 && r.failures == n
  {
    var s := Alternating(a, b, n);
    UpdatingOutcome(a, s, increment);
    var k := Stop(a, s);
    assert Head(a, s, k) == if k % 2 == 0 then a else b;
  }

  /** Two alternating observations bring the loop back to the same head, whatever follows. */
  lemma InterferenceCycle(rest: seq<int>, increment: int)
    ensures Simulate(1, 1, [2, 1] + rest, increment, true) == Later(Simulate(1, 1, rest, increment, true), 2, 2)
  {}

  // ----- the loop that keeps its stale saved value

  lemma {:induction false} StaleFrom(refs: int, expected: int, schedule: seq<int>, increment: int)
    requires expected != 0 && expected !in schedule
    ensures Simulate(refs, expected, schedule, increment, false) ==
      if schedule == [] && refs == expected then Finished(Successful, 1, 0, expected + increment, expected)
      else
        var last := if schedule == [] then refs else schedule[|schedule| - 1];
        Finished(Nonterminating, |schedule| + 1, |schedule| + 1, last, expected)
    decreases schedule
  {
    if schedule != [] {
      assert schedule[0] != expected;
      StaleFrom(schedule[0], expected, schedule[1..], increment);
    }
  }

  /** The index of the first occurrence. */
  function FirstAt(schedule: seq<int>, v: int): (k: nat)
    requires v in schedule
    ensures k < |schedule| && schedule[k] == v && v !in schedule[..k]
  {
    if schedule[0] == v then 0
    else
      var k := 1 + FirstAt(schedule[1..], v);
      assert schedule[..k] == [schedule[0]] + schedule[1..][..k - 1];
      k
  }

  lemma {:induction false} StaleHit(refs: int, expected: int, schedule: seq<int>, increment: int)
    requires expected != 0 && expected in schedule
    ensures var k := FirstAt(schedule, expected);
      Simulate(refs, expected, schedule, increment, false) ==
      Finished(Successful, k + 1, k, expected + increment, expected)
    decreases schedule
  {
    if schedule[0] != expected {
      StaleHit(schedule[0], expected, schedule[1..], increment);
    }
  }

  /** Without the update the loop hangs exactly when it started from a nonzero value that some
      interference hid and none brought back. */
  lemma StaleOutcome(initial: int, schedule: seq<int>, increment: int)
    ensures var r := Simulate(initial, initial, schedule, increment, false);
      r.Finished? &&
      (r.outcome == ZeroExit <==> initial == 0) &&
      (r.outcome == Nonterminating <==> initial != 0 && schedule != [] && initial !in schedule) &&
      (r.outcome == Nonterminating ==> r.attempts == r.failures == |schedule| + 1) &&
      (r.outcome == Successful ==>
         r.attempts == r.failures + 1 && r.failures == if schedule == [] then 0 else FirstAt(schedule, initial)) &&
      (r.outcome != Nonterminating ==> r.failures <= |schedule| && r.attempts <= |schedule| + 1)
  {
    if initial != 0 {
      if initial in schedule {
        StaleHit(initial, initial, schedule, increment);
      } else {
        StaleFrom(initial, initial, schedule, increment);
      }
    }
  }
}

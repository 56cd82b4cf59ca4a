/** Publishing a cleaned data cache: any number of callers, a lock, a flag word and a flush record. */
module CacheSync {
  import opened Common

  const TABLE := 4
  const DCACHE_CLEAN: nat := 0

  /** What a caller does once set_bit returns: in the early-set control it is called by test_bit. */
  datatype After = FromFlush | FromTest(result: bool)

  /** Where a caller is; at SetWrite it is about to pass the assertion and set the bit. */
  datatype Pc =
    | Start | TestRead | TestUnlock(result: bool) | Flush
    | SetLock(after: After) | SetCheck(after: After) | SetWrite(after: After) | SetUnlock(after: After)
    | Returned

  /** word is the flag word as the set of its bit numbers that are one. */
  datatype State = State(lock: Option<nat>, word: set<nat>, flushed: seq<bool>, pcs: seq<Pc>)

  predicate InTable(id: int) {
    0 <= id < TABLE
  }

  predicate Clean(word: set<nat>) {
    DCACHE_CLEAN in word
  }

  /** ids gives every caller its thread id, which several callers may share. */
  predicate Shape(s: State, ids: seq<int>) {
    |s.pcs| == |ids| && |s.flushed| == TABLE
  }

  predicate Initial(s: State, ids: seq<int>) {
    Shape(s, ids) && s.lock == None && !Clean(s.word) && (forall i | 0 <= i < TABLE :: !s.flushed[i]) &&
    forall t | 0 <= t < |s.pcs| :: s.pcs[t] == Start
  }

  function Leave(after: After): Pc {
    match after
    case FromFlush => Returned
    case FromTest(result) => if result then Returned else Flush
  }

  /** A step of caller t; failed says that a lock call in it returns -1. */
  datatype Action = Action(t: nat, failed: bool)

  predicate Locking(pc: Pc) {
    pc.Start? || pc.SetLock?
  }

  predicate Enabled(s: State, a: Action) {
    a.t < |s.pcs| && (Locking(s.pcs[a.t]) && !a.failed ==> s.lock == None)
  }

  function Apply(s: State, ids: seq<int>, early: bool, a: Action): (s': State)
    requires Shape(s, ids) && Enabled(s, a)
    ensures Shape(s', ids)
  {
    var t, id := a.t, ids[a.t];
    match s.pcs[t]
    case Start =>
      if a.failed then s.(pcs := s.pcs[t := Flush])
      else s.(lock := Some(t), pcs := s.pcs[t := TestRead])
    case TestRead =>
      s.(pcs := s.pcs[t := TestUnlock(Clean(s.word))])
    case TestUnlock(result) =>
      s.(lock := None,
         pcs := s.pcs[t := if early then SetLock(FromTest(result)) else if result then Returned else Flush])
    case Flush =>
      s.(flushed := if InTable(id) then s.flushed[id := true] else s.flushed, pcs := s.pcs[t := SetLock(FromFlush)])
    case SetLock(after) =>
      if a.failed then s.(pcs := s.pcs[t := Leave(after)])
      else s.(lock := Some(t), pcs := s.pcs[t := SetCheck(after)])
    case SetCheck(after) =>
      s.(pcs := s.pcs[t := if InTable(id) then SetWrite(after) else SetUnlock(after)])
    case SetWrite(after) =>
      s.(word := s.word + {DCACHE_CLEAN}, pcs := s.pcs[t := SetUnlock(after)])
    case SetUnlock(after) =>
      s.(lock := None, pcs := s.pcs[t := Leave(after)])
    case Returned =>
      s.(pcs := s.pcs[t := Start])
  }

  predicate IsRun(s: State, ids: seq<int>, early: bool, acts: seq<Action>)
    requires Shape(s, ids)
    decreases acts
  {
    acts == [] || (Enabled(s, acts[0]) && IsRun(Apply(s, ids, early, acts[0]), ids, early, acts[1..]))
  }

  function Final(s: State, ids: seq<int>, early: bool, acts: seq<Action>): (e: State)
    requires Shape(s, ids) && IsRun(s, ids, early, acts)
    ensures Shape(e, ids)
    decreases acts
  {
    if acts == [] then s else Final(Apply(s, ids, early, acts[0]), ids, early, acts[1..])
  }

  // ----- what every interleaving keeps

  predicate Holding(pc: Pc) {
    pc.TestRead? || pc.TestUnlock? || pc.SetCheck? || pc.SetWrite? || pc.SetUnlock?
  }

  predicate InSet(pc: Pc) {
    pc.SetLock? || pc.SetCheck? || pc.SetWrite? || pc.SetUnlock?
  }

  predicate SomeFlushed(s: State) {
    exists i :: 0 <= i < |s.flushed| && s.flushed[i]
  }

  /** The assertion in set_bit, for a caller about to pass it. */
  predicate Asserted(s: State, ids: seq<int>, t: nat)
    requires Shape(s, ids) && t < |ids|
  {
    s.pcs[t].SetWrite? ==> InTable(ids[t]) && s.flushed[ids[t]]
  }

  predicate CallerInv(s: State, ids: seq<int>, t: nat)
    requires Shape(s, ids) && t < |ids|
  {
    (Holding(s.pcs[t]) <==> s.lock == Some(t)) &&
    (InSet(s.pcs[t]) ==> s.pcs[t].after == FromFlush && (InTable(ids[t]) ==> s.flushed[ids[t]])) &&
    (s.pcs[t].SetWrite? ==> InTable(ids[t])) &&
    (s.pcs[t] == TestUnlock(true) ==> Clean(s.word)) &&
    (s.pcs[t] == Returned && InTable(ids[t]) ==> SomeFlushed(s))
  }

  predicate Inv(s: State, ids: seq<int>) {
    Shape(s, ids) && (Clean(s.word) ==> SomeFlushed(s)) &&
    (s.lock.Some? ==> s.lock.value < |ids|) &&
    forall t | 0 <= t < |ids| :: CallerInv(s, ids, t)
  }

  lemma StepInv(s: State, ids: seq<int>, a: Action)
    requires Inv(s, ids) && Enabled(s, a)
    ensures Inv(Apply(s, ids, false, a), ids)
  {
    var s' := Apply(s, ids, false, a);
    FlushedGrows(s, ids, false, a);
    assert CallerInv(s, ids, a.t);
    if s.pcs[a.t] == Flush && InTable(ids[a.t]) {
      assert s'.flushed[ids[a.t]];
    }
    assert CallerInv(s', ids, a.t);
    forall t | 0 <= t < |ids| ensures CallerInv(s', ids, t) {
      assert CallerInv(s, ids, t);
    }
  }

  /** No step takes back a flush or clears a bit of the flag word. */
  lemma FlushedGrows(s: State, ids: seq<int>, early: bool, a: Action)
    requires Shape(s, ids) && Enabled(s, a)
    ensures var s' := Apply(s, ids, early, a);
      (forall i | 0 <= i < TABLE :: s.flushed[i] ==> s'.flushed[i]) && s.word <= s'.word &&
      (SomeFlushed(s) ==> SomeFlushed(s'))
  {}

  lemma {:induction false} RunInv(s: State, ids: seq<int>, acts: seq<Action>)
    requires Inv(s, ids) && IsRun(s, ids, false, acts)
    ensures Inv(Final(s, ids, false, acts), ids)
    decreases acts
  {
    if acts != [] {
      StepInv(s, ids, acts[0]);
      RunInv(Apply(s, ids, false, acts[0]), ids, acts[1..]);
    }
  }

  /** In every interleaving of any number of callers with any thread ids, shared or not: whoever reaches
      the assertion finds its id's flush recorded, the bit is set only after some flush, at most one caller
      holds the lock, and once a caller with an id in the table has returned, some flush completed. */
  lemma Published(s: State, ids: seq<int>, acts: seq<Action>)
    requires Initial(s, ids) && IsRun(s, ids, false, acts)
    ensures var e := Final(s, ids, false, acts);
      (forall t | 0 <= t < |ids| && e.pcs[t].SetWrite? :: 0 <= ids[t] < 4 && e.flushed[ids[t]]) &&
      (0 in e.word ==> SomeFlushed(e)) &&
      (forall t, u | 0 <= t < |ids| && 0 <= u < |ids| && Holding(e.pcs[t]) && Holding(e.pcs[u]) :: t == u) &&
      (forall t | 0 <= t < |ids| && e.pcs[t] == Returned && 0 <= ids[t] < 4 :: SomeFlushed(e))
  {
    forall t | 0 <= t < |ids| ensures CallerInv(s, ids, t) {
    }
    assert Inv(s, ids);
    RunInv(s, ids, acts);
    var e := Final(s, ids, false, acts);
    forall t | 0 <= t < |ids|
      ensures Asserted(e, ids, t) && (Holding(e.pcs[t]) ==> e.lock == Some(t)) &&
        (e.pcs[t] == Returned && InTable(ids[t]) ==> SomeFlushed(e))
    {
      assert CallerInv(e, ids, t);
    }
  }

  /** Along every run, with or without the early set, bits of the flag word are never cleared. */
  lemma {:induction false} NeverCleared(s: State, ids: seq<int>, early: bool, acts: seq<Action>)
    requires Shape(s, ids) && IsRun(s, ids, early, acts)
    ensures s.word <= Final(s, ids, early, acts).word
    decreases acts
  {
    if acts != [] {
      FlushedGrows(s, ids, early, acts[0]);
      NeverCleared(Apply(s, ids, early, acts[0]), ids, early, acts[1..]);
    }
  }

  // ----- whose flush it is

  /** The state after the first k steps. */
  function At(s: State, ids: seq<int>, acts: seq<Action>, k: nat): (e: State)
    requires Shape(s, ids) && IsRun(s, ids, false, acts) && k <= |acts|
    ensures Shape(e, ids)
    decreases acts
  {
    if k == 0 then s else At(Apply(s, ids, false, acts[0]), ids, acts[1..], k - 1)
  }

  lemma {:induction false} AtStep(s: State, ids: seq<int>, acts: seq<Action>, k: nat)
    requires Shape(s, ids) && IsRun(s, ids, false, acts) && k < |acts|
    ensures Enabled(At(s, ids, acts, k), acts[k])
    ensures At(s, ids, acts, k + 1) == Apply(At(s, ids, acts, k), ids, false, acts[k])
    decreases acts
  {
    var s' := Apply(s, ids, false, acts[0]);
    if k == 0 {
      assert At(s, ids, acts, 1) == At(s', ids, acts[1..], 0);
    } else {
      AtStep(s', ids, acts[1..], k - 1);
    }
  }

  /** Step j is caller t's own flush, and from then to k the caller is in set_bit, so in the same call. */
  predicate FlushedAt(s: State, ids: seq<int>, acts: seq<Action>, t: nat, j: nat, k: nat)
    requires Shape(s, ids) && IsRun(s, ids, false, acts) && t < |ids|
  {
    j < k <= |acts| && acts[j].t == t && At(s, ids, acts, j).pcs[t] == Flush &&
    forall i | j < i <= k :: InSet(At(s, ids, acts, i).pcs[t])
  }

  /** set_bit is only entered from one's own flush. */
  lemma EntersFromFlush(s: State, ids: seq<int>, a: Action, t: nat)
    requires Shape(s, ids) && Enabled(s, a) && t < |ids| && InSet(Apply(s, ids, false, a).pcs[t]) && !InSet(s.pcs[t])
    ensures a.t == t && s.pcs[t] == Flush
  {}

  /** In every run a caller about to pass the assertion has made its own flush step in the same call,
      whichever other callers share its id. */
  lemma {:induction false} OwnFlushFirst(s: State, ids: seq<int>, acts: seq<Action>, t: nat, k: nat) returns (j: nat)
    requires Initial(s, ids) && IsRun(s, ids, false, acts) && t < |ids| && k <= |acts|
    requires InSet(At(s, ids, acts, k).pcs[t])
    ensures FlushedAt(s, ids, acts, t, j, k)
    decreases k
  {
    assert k > 0;
    AtStep(s, ids, acts, k - 1);
    if InSet(At(s, ids, acts, k - 1).pcs[t]) {
      j := OwnFlushFirst(s, ids, acts, t, k - 1);
    } else {
      EntersFromFlush(At(s, ids, acts, k - 1), ids, acts[k - 1], t);
      j := k - 1;
    }
  }

  // ----- what is published, and who flushes

  /** Once a caller has set the bit it is set in every later state of the run. */
  lemma {:induction false} StaysSet(s: State, ids: seq<int>, acts: seq<Action>, k: nat, j: nat)
    requires Shape(s, ids) && IsRun(s, ids, false, acts) && k < j <= |acts|
    requires acts[k].t < |ids| && At(s, ids, acts, k).pcs[acts[k].t].SetWrite?
    ensures 0 in At(s, ids, acts, j).word
    decreases j
  {
    AtStep(s, ids, acts, j - 1);
    if k + 1 < j {
      StaysSet(s, ids, acts, k, j - 1);
    }
  }

  /** Caller t holds the lock in set_bit and has yet to set the bit. */
  predicate Setting(s: State, t: nat)
    requires t < |s.pcs|
  {
    s.pcs[t].SetCheck? || s.pcs[t].SetWrite?
  }

  lemma SettingStep(s: State, ids: seq<int>, a: Action, t: nat)
    requires Shape(s, ids) && Enabled(s, a) && t < |ids| && 0 <= ids[t] < 4 && Setting(s, t)
    ensures var s' := Apply(s, ids, false, a); Setting(s', t) || 0 in s'.word
  {}

  /** A caller with an id in the table whose lock call in set_bit succeeds leaves set_bit, and so returns,
      only with the bit set. */
  lemma {:induction false} LeavesSet(s: State, ids: seq<int>, acts: seq<Action>, k: nat, j: nat)
    requires Shape(s, ids) && IsRun(s, ids, false, acts) && k < j <= |acts|
    requires var t := acts[k].t;
      t < |ids| && 0 <= ids[t] < 4 && At(s, ids, acts, k).pcs[t].SetLock? && !acts[k].failed
    ensures Setting(At(s, ids, acts, j), acts[k].t) || 0 in At(s, ids, acts, j).word
    decreases j
  {
    AtStep(s, ids, acts, j - 1);
    if k + 1 < j {
      LeavesSet(s, ids, acts, k, j - 1);
      if Setting(At(s, ids, acts, j - 1), acts[k].t) {
        SettingStep(At(s, ids, acts, j - 1), ids, acts[j - 1], acts[k].t);
      }
    }
  }

  /** Between two of its own steps a caller stays where it is. */
  lemma {:induction false} Waits(s: State, ids: seq<int>, acts: seq<Action>, t: nat, k: nat, j: nat)
    requires Shape(s, ids) && IsRun(s, ids, false, acts) && k <= j <= |acts| && t < |ids|
    requires forall i | k <= i < j :: acts[i].t != t
    ensures At(s, ids, acts, j).pcs[t] == At(s, ids, acts, k).pcs[t]
    decreases j
  {
    if k < j {
      AtStep(s, ids, acts, j - 1);
      Waits(s, ids, acts, t, k, j - 1);
    }
  }

  /** What test_bit reads decides: with its next step i after the read at k, a caller that found the bit set
      returns, and one that found it clear goes on to flush. */
  lemma TestDecides(s: State, ids: seq<int>, acts: seq<Action>, t: nat, k: nat, i: nat)
    requires Shape(s, ids) && IsRun(s, ids, false, acts) && k < i < |acts| && t < |ids|
    requires acts[k].t == acts[i].t == t && forall n | k < n < i :: acts[n].t != t
    requires At(s, ids, acts, k).pcs[t] == TestRead
    ensures At(s, ids, acts, i + 1).pcs[t] == if 0 in At(s, ids, acts, k).word then Returned else Flush
  {
    AtStep(s, ids, acts, k);
    Waits(s, ids, acts, t, k + 1, i);
    AtStep(s, ids, acts, i);
  }

  /** A flush step records the caller's id, and is followed by set_bit. */
  lemma FlushRecords(s: State, ids: seq<int>, acts: seq<Action>, k: nat)
    requires Shape(s, ids) && IsRun(s, ids, false, acts) && k < |acts| && acts[k].t < |ids|
    requires At(s, ids, acts, k).pcs[acts[k].t] == Flush
    ensures var t, e := acts[k].t, At(s, ids, acts, k + 1);
      e.pcs[t] == SetLock(FromFlush) && (0 <= ids[t] < 4 ==> e.flushed[ids[t]])
  {
    AtStep(s, ids, acts, k);
  }

  // ----- the controls

  function Repeat(t: nat, n: nat): seq<Action> {
    seq(n, _ => Action(t, false))
  }

  lemma Advance(s: State, ids: seq<int>, early: bool, t: nat, n: nat)
    requires Shape(s, ids) && n > 0 && Enabled(s, Action(t, false))
    ensures var s' := Apply(s, ids, early, Action(t, false));
      (IsRun(s, ids, early, Repeat(t, n)) <==> IsRun(s', ids, early, Repeat(t, n - 1))) &&
      (IsRun(s', ids, early, Repeat(t, n - 1)) ==>
         Final(s, ids, early, Repeat(t, n)) == Final(s', ids, early, Repeat(t, n - 1)))
  {
    assert Repeat(t, n)[1..] == Repeat(t, n - 1);
  }

  /** Steps of test_bit by a caller that is alone. */
  lemma TestAlone(s: State, ids: seq<int>, early: bool, t: nat, n: nat) returns (s3: State)
    requires Initial(s, ids) && t < |ids| && n >= 3
    ensures Shape(s3, ids) && s3.lock == None && s3.word == s.word && s3.flushed == s.flushed
    ensures s3.pcs[t] == if early then SetLock(FromTest(false)) else Flush
    ensures IsRun(s, ids, early, Repeat(t, n)) <==> IsRun(s3, ids, early, Repeat(t, n - 3))
    ensures IsRun(s3, ids, early, Repeat(t, n - 3)) ==>
              IsRun(s, ids, early, Repeat(t, n)) &&
              Final(s, ids, early, Repeat(t, n)) == Final(s3, ids, early, Repeat(t, n - 3))
  {
    Advance(s, ids, early, t, n);
    var s1 := Apply(s, ids, early, Action(t, false));
    Advance(s1, ids, early, t, n - 1);
    var s2 := Apply(s1, ids, early, Action(t, false));
    Advance(s2, ids, early, t, n - 2);
    s3 := Apply(s2, ids, early, Action(t, false));
  }

  /** A caller alone, its lock calls succeeding, returns after eight steps with its flush recorded, the bit
      set and the lock free. */
  lemma SoloCall(s: State, ids: seq<int>, t: nat)
    requires Initial(s, ids) && t < |ids| && 0 <= ids[t] < 4
    ensures IsRun(s, ids, false, Repeat(t, 8))
    ensures var e := Final(s, ids, false, Repeat(t, 8));
      e.pcs[t] == Returned && e.lock == None && e.word == s.word + {0} && e.flushed == s.flushed[ids[t] := true]
  {
    var s3 := TestAlone(s, ids, false, t, 8);
    Advance(s3, ids, false, t, 5);
    var s4 := Apply(s3, ids, false, Action(t, false));
    SetAlone(s4, ids, t);
  }

  /** Steps of set_bit by a caller that is alone. */
  lemma SetAlone(s: State, ids: seq<int>, t: nat)
    requires Shape(s, ids) && t < |ids| && s.pcs[t] == SetLock(FromFlush) && s.lock == None
    requires 0 <= ids[t] < 4
    ensures IsRun(s, ids, false, Repeat(t, 4))
    ensures var e := Final(s, ids, false, Repeat(t, 4));
      e.pcs[t] == Returned && e.lock == None && e.word == s.word + {0} && e.flushed == s.flushed
  {
    Advance(s, ids, false, t, 4);
    var s1 := Apply(s, ids, false, Action(t, false));
    Advance(s1, ids, false, t, 3);
    var s2 := Apply(s1, ids, false, Action(t, false));
    Advance(s2, ids, false, t, 2);
    var s3 := Apply(s2, ids, false, Action(t, false));
    Advance(s3, ids, false, t, 1);
  }

  /** Where the bit is set already, a caller alone returns after three steps and changes nothing. */
  lemma SoloCallWhenSet(s: State, ids: seq<int>, t: nat)
    requires Shape(s, ids) && t < |ids| && s.pcs[t] == Start && s.lock == None && 0 in s.word
    ensures IsRun(s, ids, false, Repeat(t, 3))
    ensures Final(s, ids, false, Repeat(t, 3)) == s.(pcs := s.pcs[t := Returned])
  {
    Advance(s, ids, false, t, 3);
    var s1 := Apply(s, ids, false, Action(t, false));
    Advance(s1, ids, false, t, 2);
    var s2 := Apply(s1, ids, false, Action(t, false));
    Advance(s2, ids, false, t, 1);
  }

  /** A lock call that fails in test_bit makes the caller flush, one in set_bit makes it return. */
  lemma LockFails(s: State, ids: seq<int>, t: nat)
    requires Shape(s, ids) && t < |ids|
    ensures s.pcs[t] == Start ==> Apply(s, ids, false, Action(t, true)) == s.(pcs := s.pcs[t := Flush])
    ensures s.pcs[t] == SetLock(FromFlush) ==> Apply(s, ids, false, Action(t, true)) == s.(pcs := s.pcs[t := Returned])
  {}

  /** With test_bit setting the bit early, any caller alone fails the assertion after five steps. */
  lemma EarlySetFails(s: State, ids: seq<int>, t: nat)
    requires Initial(s, ids) && t < |ids| && 0 <= ids[t] < 4
    ensures IsRun(s, ids, true, Repeat(t, 5)) && !Asserted(Final(s, ids, true, Repeat(t, 5)), ids, t)
  {
    var s3 := TestAlone(s, ids, true, t, 5);
    Advance(s3, ids, true, t, 2);
    var s4 := Apply(s3, ids, true, Action(t, false));
    Advance(s4, ids, true, t, 1);
    var s5 := Apply(s4, ids, true, Action(t, false));
    assert s5.pcs[t] == SetWrite(FromTest(false)) && s5.flushed == s.flushed;
  }

  /** The table bound is needed: any caller outside it can return with no flush recorded. */
  lemma OutsideTable(s: State, ids: seq<int>, t: nat)
    requires Initial(s, ids) && t < |ids| && !(0 <= ids[t] < 4)
    ensures IsRun(s, ids, false, Repeat(t, 7))
    ensures var e := Final(s, ids, false, Repeat(t, 7)); e.pcs[t] == Returned && !SomeFlushed(e)
  {
    var s3 := TestAlone(s, ids, false, t, 7);
    Advance(s3, ids, false, t, 4);
    var s4 := Apply(s3, ids, false, Action(t, false));
    Advance(s4, ids, false, t, 3);
    var s5 := Apply(s4, ids, false, Action(t, false));
    Advance(s5, ids, false, t, 2);
    var s6 := Apply(s5, ids, false, Action(t, false));
    Advance(s6, ids, false, t, 1);
    var s7 := Apply(s6, ids, false, Action(t, false));
    assert s7.pcs[t] == Returned && s7.flushed == s.flushed;
  }
}

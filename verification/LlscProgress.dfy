/** Bounded store-conditional failures inside each compare-and-exchange of the retry loop. */
module LlscProgress {
  import opened CasRetry
  import opened Common
  import opened ScheduleCounts

  function Failures(f: seq<int>): int {
    if f == [] then 0 else f[0] + Failures(f[1..])
  }

  /** Each exchange stores once more than it fails. */
  function Attempts(f: seq<int>): int {
    if f == [] then 0 else f[0] + 1 + Attempts(f[1..])
  }

  lemma {:induction false} AttemptsAreFailures(f: seq<int>)
    ensures Attempts(f) == Failures(f) + |f|
  {
    if f != [] {
      AttemptsAreFailures(f[1..]);
    }
  }

  datatype Completion = UnderBound | Never

  datatype Row = Row(sourceAttempts: nat, storeFailures: int, storeAttempts: int, schedule: seq<int>,
                     outcome: Completion)

  function RowOf(attempts: nat, f: seq<int>): Row {
    Row(attempts, Failures(f), Attempts(f), f, UnderBound)
  }

  function RangeFrom(lo: nat, hi: nat): (r: seq<int>)
    requires lo <= hi
    ensures |r| == hi - lo && forall i | 0 <= i < |r| :: r[i] == lo + i
  {
    seq(hi - lo, i => lo + i)
  }

  function RowsOf(attempts: nat, ss: seq<seq<int>>): (r: seq<Row>)
    ensures |r| == |ss| && forall i | 0 <= i < |r| :: r[i] == RowOf(attempts, ss[i])
  {
    seq(|ss|, i requires 0 <= i < |ss| => RowOf(attempts, ss[i]))
  }

  function AllRows(sourceAttempts: seq<nat>, maximum: nat): seq<Row> {
    if sourceAttempts == [] then []
    else
      var last := |sourceAttempts| - 1;
      AllRows(sourceAttempts[..last], maximum) +
      RowsOf(sourceAttempts[last], Product(RangeFrom(0, maximum + 1), sourceAttempts[last]))
  }

  /** The nested loops that append the rows. */
  method BuildRows(sourceAttempts: seq<nat>, maximum: nat) returns (rows: seq<Row>)
    ensures rows == AllRows(sourceAttempts, maximum)
  {
    rows := [];
    for i := 0 to |sourceAttempts|
      invariant rows == AllRows(sourceAttempts[..i], maximum)
    {
      var attempts := sourceAttempts[i];
      var schedules := Product(RangeFrom(0, maximum + 1), attempts);
      ghost var before := rows;
      for j := 0 to |schedules|
        invariant rows == before + RowsOf(attempts, schedules[..j])
      {
        rows := rows + [Row(attempts, Failures(schedules[j]), Attempts(schedules[j]), schedules[j], UnderBound)];
        assert RowsOf(attempts, schedules[..j + 1]) ==
          RowsOf(attempts, schedules[..j]) + [RowOf(attempts, schedules[j])];
      }
      assert schedules[..|schedules|] == schedules;
      assert sourceAttempts[..i + 1][..i] == sourceAttempts[..i];
    }
    assert sourceAttempts[..|sourceAttempts|] == sourceAttempts;
  }

  // ----- what the rows are

  predicate Bounded(f: seq<int>, maximum: nat) {
    forall i | 0 <= i < |f| :: 0 <= f[i] <= maximum
  }

  lemma MulLast(k: nat, n: nat)
    requires n > 0
    ensures k * n == k * (n - 1) + k
  {}

  lemma {:induction false} FailuresBound(f: seq<int>, maximum: nat)
    requires Bounded(f, maximum)
    ensures 0 <= Failures(f) <= maximum * |f|
  {
    if f != [] {
      FailuresBound(f[1..], maximum);
      MulLast(maximum, |f|);
    }
  }

  lemma AttemptsBound(f: seq<int>, maximum: nat)
    requires Bounded(f, maximum)
    ensures Attempts(f) <= (maximum + 1) * |f|
  {
    AttemptsAreFailures(f);
    FailuresBound(f, maximum);
    MulSucc(maximum, |f|);
  }

  lemma {:induction false} FailuresAttained(maximum: nat, n: nat)
    ensures Failures(seq(n, _ => maximum)) == maximum * n
  {
    if n > 0 {
      assert seq(n, _ => maximum)[1..] == seq(n - 1, _ => maximum);
      FailuresAttained(maximum, n - 1);
      MulLast(maximum, n);
    }
  }

  lemma AttemptsAttained(maximum: nat, n: nat)
    ensures Attempts(seq(n, _ => maximum)) == (maximum + 1) * n
  {
    AttemptsAreFailures(seq(n, _ => maximum));
    FailuresAttained(maximum, n);
    MulSucc(maximum, n);
  }

  /** The enumeration is exactly the failure schedules within the bound, one row for each. */
  lemma {:induction false} ProductIsBounded(maximum: nat, f: seq<int>)
    ensures f in Product(RangeFrom(0, maximum + 1), |f|) <==> Bounded(f, maximum)
  {
    var values := RangeFrom(0, maximum + 1);
    assert forall v :: v in values <==> 0 <= v <= maximum by {
      forall v | 0 <= v <= maximum ensures v in values {
        assert values[v] == v;
      }
    }
    if Bounded(f, maximum) {
      ProductHas(values, f);
    } else if f != [] && f in Product(values, |f|) {
      ProductElements(values, |f|, f);
    }
  }

  lemma {:induction false} ProductElements(values: seq<int>, l: nat, s: seq<int>)
    requires s in Product(values, l)
    ensures |s| == l && forall i | 0 <= i < |s| :: s[i] in values
  {
    if l > 0 {
      EachElements(values, Product(values, l - 1), s);
      ProductElements(values, l - 1, s[1..]);
      assert forall i | 0 < i < |s| :: s[i] == s[1..][i - 1];
    }
  }

  lemma {:induction false} EachElements(vs: seq<int>, ss: seq<seq<int>>, s: seq<int>)
    requires s in PrependEach(vs, ss)
    ensures s != [] && s[0] in vs && s[1..] in ss
  {
    if s in Prepend(vs[0], ss) {
      PrependElements(vs[0], ss, s);
    } else {
      EachElements(vs[1..], ss, s);
    }
  }

  lemma {:induction false} PrependElements(v: int, ss: seq<seq<int>>, s: seq<int>)
    requires s in Prepend(v, ss)
    ensures s != [] && s[0] == v && s[1..] in ss
  {
    if s == [v] + ss[0] {
      assert s[1..] == ss[0];
    } else {
      PrependElements(v, ss[1..], s);
    }
  }

  /** A row is in the table exactly when its failure schedule is within the bound and has a listed length. */
  lemma {:induction false} RowsExactly(sourceAttempts: seq<nat>, maximum: nat, r: Row)
    ensures r in AllRows(sourceAttempts, maximum) <==>
      r == RowOf(|r.schedule|, r.schedule) && |r.schedule| in sourceAttempts && Bounded(r.schedule, maximum)
  {
    if sourceAttempts != [] {
      var n := |sourceAttempts| - 1;
      var last, ss := sourceAttempts[n], Product(RangeFrom(0, maximum + 1), sourceAttempts[n]);
      RowsExactly(sourceAttempts[..n], maximum, r);
      assert sourceAttempts == sourceAttempts[..n] + [last];
      RowsOfExactly(last, ss, r);
      if r.schedule in ss {
        ProductElements(RangeFrom(0, maximum + 1), last, r.schedule);
      }
      ProductIsBounded(maximum, r.schedule);
    }
  }

  lemma RowsOfExactly(attempts: nat, ss: seq<seq<int>>, r: Row)
    ensures r in RowsOf(attempts, ss) <==> r == RowOf(attempts, r.schedule) && r.schedule in ss
  {
    if r.schedule in ss {
      var i :| 0 <= i < |ss| && ss[i] == r.schedule;
      assert RowsOf(attempts, ss)[i] == RowOf(attempts, r.schedule);
    }
  }

  function PowerSum(k: nat, exponents: seq<nat>): nat {
    if exponents == [] then 0
    else PowerSum(k, exponents[..|exponents| - 1]) + Pow(k, exponents[|exponents| - 1])
  }

  lemma {:induction false} DiagnosticSize(sourceAttempts: seq<nat>, maximum: nat)
    ensures |AllRows(sourceAttempts, maximum)| == PowerSum(maximum + 1, sourceAttempts)
  {
    if sourceAttempts != [] {
      var last := |sourceAttempts| - 1;
      DiagnosticSize(sourceAttempts[..last], maximum);
      ProductSize(RangeFrom(0, maximum + 1), sourceAttempts[last]);
    }
  }

  lemma MulMono(k: nat, a: nat, b: nat)
    requires a <= b
    ensures k * a <= k * b
  {}

  predicate Most(sourceAttempts: seq<nat>, most: nat) {
    most in sourceAttempts && forall n | n in sourceAttempts :: n <= most
  }

  /** No row stores more often than the most attempts, each failing as often as allowed, and one does. */
  lemma DiagnosticMaxima(sourceAttempts: seq<nat>, maximum: nat, most: nat)
    requires Most(sourceAttempts, most)
    ensures forall r | r in AllRows(sourceAttempts, maximum) ::
      r.sourceAttempts <= most && r.storeFailures <= maximum * most && r.storeAttempts <= (maximum + 1) * most &&
      r.outcome == UnderBound
    ensures Row(most, maximum * most, (maximum + 1) * most, seq(most, _ => maximum), UnderBound) in
      AllRows(sourceAttempts, maximum)
  {
    forall r | r in AllRows(sourceAttempts, maximum)
      ensures r.storeFailures <= maximum * most && r.storeAttempts <= (maximum + 1) * most && r.outcome == UnderBound
      ensures r.sourceAttempts <= most
    {
      RowsExactly(sourceAttempts, maximum, r);
      FailuresBound(r.schedule, maximum);
      AttemptsBound(r.schedule, maximum);
      MulMono(maximum, |r.schedule|, most);
      MulMono(maximum + 1, |r.schedule|, most);
    }
    FailuresAttained(maximum, most);
    AttemptsAttained(maximum, most);
    RowsExactly(sourceAttempts, maximum, RowOf(most, seq(most, _ => maximum)));
  }

  // ----- the summary of the rows

  datatype Diagnostic = Diagnostic(finiteSchedules: nat, maxSourceAttempts: int, maxStoreAttempts: int,
                                   maxStoreFailures: int, nonterminating: nat, maximumWitness: Row)

  function MaxOf(rows: seq<Row>, key: Row -> int): int
    requires rows != []
  {
    if |rows| == 1 then key(rows[0])
    else
      var rest := MaxOf(rows[1..], key);
      if key(rows[0]) > rest then key(rows[0]) else rest
  }

  lemma {:induction false} MaxOfIs(rows: seq<Row>, key: Row -> int, r: Row)
    requires r in rows && forall q | q in rows :: key(q) <= key(r)
    ensures MaxOf(rows, key) == key(r)
  {
    var rest := rows[1..];
    if |rows| > 1 {
      if r in rest {
        MaxOfIs(rest, key, r);
      } else {
        MaxOfAtMost(rest, key, key(r));
      }
    }
  }

  lemma {:induction false} MaxOfAtMost(rows: seq<Row>, key: Row -> int, n: int)
    requires rows != [] && forall q | q in rows :: key(q) <= n
    ensures MaxOf(rows, key) <= n
  {
    if |rows| > 1 {
      MaxOfAtMost(rows[1..], key, n);
    }
  }

  /** The first row with n store attempts, if there is one. */
  function FirstWith(rows: seq<Row>, n: int): (r: Option<Row>)
    ensures r == None ==> forall q | q in rows :: q.storeAttempts != n
    ensures r.Some? ==> r.value in rows && r.value.storeAttempts == n
  {
    if rows == [] then None else if rows[0].storeAttempts == n then Some(rows[0]) else FirstWith(rows[1..], n)
  }

  function CountNever(rows: seq<Row>): nat {
    if rows == [] then 0 else (if rows[0].outcome == Never then 1 else 0) + CountNever(rows[1..])
  }

  lemma {:induction false} NoneNever(rows: seq<Row>)
    requires forall r | r in rows :: r.outcome == UnderBound
    ensures CountNever(rows) == 0
  {
    if rows != [] {
      NoneNever(rows[1..]);
    }
  }

  /** The diagnostic of a table whose longest rows have the given number of attempts. */
  predicate IsDiagnostic(d: Diagnostic, sourceAttempts: seq<nat>, maximum: nat, most: nat) {
    d.finiteSchedules == PowerSum(maximum + 1, sourceAttempts) && d.maxSourceAttempts == most &&
    d.maxStoreAttempts == (maximum + 1) * most && d.maxStoreFailures == maximum * most && d.nonterminating == 0 &&
    d.maximumWitness in AllRows(sourceAttempts, maximum) && d.maximumWitness.storeAttempts == (maximum + 1) * most
  }

  lemma MaximaOfRows(rows: seq<Row>, r: Row)
    requires r in rows && forall q | q in rows ::
      q.sourceAttempts <= r.sourceAttempts && q.storeFailures <= r.storeFailures && q.storeAttempts <= r.storeAttempts
    ensures MaxOf(rows, (q: Row) => q.sourceAttempts) == r.sourceAttempts
    ensures MaxOf(rows, (q: Row) => q.storeFailures) == r.storeFailures
    ensures MaxOf(rows, (q: Row) => q.storeAttempts) == r.storeAttempts
  {
    MaxOfIs(rows, (q: Row) => q.sourceAttempts, r);
    MaxOfIs(rows, (q: Row) => q.storeFailures, r);
    MaxOfIs(rows, (q: Row) => q.storeAttempts, r);
  }

  lemma MostExists(sourceAttempts: seq<nat>) returns (most: nat)
    requires sourceAttempts != []
    ensures Most(sourceAttempts, most)
  {
    most := sourceAttempts[0];
    for i := 1 to |sourceAttempts|
      invariant most in sourceAttempts && forall j | 0 <= j < i :: sourceAttempts[j] <= most
    {
      if sourceAttempts[i] > most {
        most := sourceAttempts[i];
      }
    }
  }

  /** max() of no rows is the source's error. */
  method BoundedDiagnostic(sourceAttempts: seq<nat>, maximum: nat) returns (d: Option<Diagnostic>)
    ensures d == None <==> sourceAttempts == []
    ensures d.Some? ==> forall most | Most(sourceAttempts, most) :: IsDiagnostic(d.value, sourceAttempts, maximum, most)
  {
    var rows := BuildRows(sourceAttempts, maximum);
    if rows == [] {
      if sourceAttempts != [] {
        var most := MostExists(sourceAttempts);
        DiagnosticMaxima(sourceAttempts, maximum, most);
      }
      return None;
    }
    var maxAttempts := MaxOf(rows, (r: Row) => r.storeAttempts);
    var first := FirstWith(rows, maxAttempts);
    var most := MostExists(sourceAttempts);
    DiagnosticMaxima(sourceAttempts, maximum, most);
    MaximaOfRows(rows, Row(most, maximum * most, (maximum + 1) * most, seq(most, _ => maximum), UnderBound));
    NoneNever(rows);
    DiagnosticSize(sourceAttempts, maximum);
    return Some(Diagnostic(|rows|, MaxOf(rows, (r: Row) => r.sourceAttempts), maxAttempts,
                           MaxOf(rows, (r: Row) => r.storeFailures), CountNever(rows), first.value));
  }

  /** The pinned results, for one to four attempts of at most two failures. */
  lemma PinnedDiagnostic(d: Diagnostic, sourceAttempts: seq<nat>, maximum: nat)
    requires sourceAttempts == [1, 2, 3, 4] && maximum == 2
    requires forall most | Most(sourceAttempts, most) :: IsDiagnostic(d, sourceAttempts, maximum, most)
    ensures d.finiteSchedules == 120 && d.maxSourceAttempts == 4 && d.maxStoreAttempts == 12 &&
      d.maxStoreFailures == 8 && d.nonterminating == 0
  {
    PinnedPowers();
    assert sourceAttempts[..3] == [1, 2, 3];
    assert sourceAttempts[3] == 4;
    assert Most(sourceAttempts, 4);
  }

  // ----- the retry loop with failing store-conditionals

  /** How often a get stores, from a loop head on: its k-th exchange fails fails(k) store-conditionals and
      then completes. */
  function StoresFrom(expected: int, schedule: seq<int>, fails: nat -> nat, k: nat): nat
    decreases schedule
  {
    if expected == 0 then 0
    else
      fails(k) + 1 +
      if schedule == [] || schedule[0] == expected then 0 else StoresFrom(schedule[0], schedule[1..], fails, k + 1)
  }

  /** The failures of the next n exchanges from the k-th on. */
  function FailuresFrom(fails: nat -> nat, k: nat, n: nat): (f: seq<int>)
    ensures |f| == n && forall i | 0 <= i < n :: f[i] == fails(k + i)
  {
    seq(n, i requires 0 <= i < n => fails(k + i))
  }

  /** A get's stores are those of the row of its exchanges. */
  lemma {:induction false} StoresAreRow(initial: int, schedule: seq<int>, increment: int, fails: nat -> nat, k: nat)
    ensures var r := Simulate(initial, initial, schedule, increment, true);
      r.Finished? && StoresFrom(initial, schedule, fails, k) == Attempts(FailuresFrom(fails, k, r.attempts))
    decreases schedule
  {
    if initial != 0 {
      if schedule == [] || schedule[0] == initial {
        assert FailuresFrom(fails, k, 1)[1..] == [];
      } else {
        StoresAreRow(schedule[0], schedule[1..], increment, fails, k + 1);
        var n := Simulate(schedule[0], schedule[0], schedule[1..], increment, true).attempts;
        assert FailuresFrom(fails, k, n + 1)[1..] == FailuresFrom(fails, k + 1, n);
      }
    }
  }

  /** A get that meets n interfering values, with at most maximum failed store-conditionals in each
      of its exchanges, stores at most (maximum + 1) * (n + 1) times. */
  lemma ComposedBound(initial: int, schedule: seq<int>, fails: nat -> nat, maximum: nat)
    requires forall i: nat :: fails(i) <= maximum
    ensures StoresFrom(initial, schedule, fails, 0) <= (maximum + 1) * (|schedule| + 1)
  {
    StoresAreRow(initial, schedule, 1, fails, 0);
    UpdatingBound(initial, schedule, 1);
    var n := Simulate(initial, initial, schedule, 1, true).attempts;
    AttemptsBound(FailuresFrom(fails, 0, n), maximum);
    MulMono(maximum + 1, n, |schedule| + 1);
  }

  /** The bound is attained for every n and every maximum. */
  lemma ComposedBoundAttained(a: int, b: int, n: nat, maximum: nat)
    requires a != b && a != 0 && b != 0
    ensures StoresFrom(a, Alternating(a, b, n), _ => maximum, 0) == (maximum + 1) * (n + 1)
  {
    BoundAttained(a, b, n, 1);
    StoresAreRow(a, Alternating(a, b, n), 1, _ => maximum, 0);
    AttemptsAttained(maximum, n + 1);
    assert FailuresFrom(_ => maximum, 0, n + 1) == seq(n + 1, _ => maximum);
  }

  lemma PinnedPowers()
    ensures Pow(3, 1) == 3 && Pow(3, 2) == 9 && Pow(3, 3) == 27 && Pow(3, 4) == 81
    ensures PowerSum(3, [1]) == 3 && PowerSum(3, [1, 2]) == 12 && PowerSum(3, [1, 2, 3]) == 39
  {}
}

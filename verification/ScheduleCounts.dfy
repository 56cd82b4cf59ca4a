/** How many schedules of the exhaustive enumeration end which way, for every value domain. */
module ScheduleCounts {
  import opened CasRetry

  // ----- the enumeration

  function Prepend(v: int, ss: seq<seq<int>>): (r: seq<seq<int>>)
    ensures |r| == |ss|
  {
    if ss == [] then [] else [[v] + ss[0]] + Prepend(v, ss[1..])
  }

  function PrependEach(vs: seq<int>, ss: seq<seq<int>>): seq<seq<int>> {
    if vs == [] then [] else Prepend(vs[0], ss) + PrependEach(vs[1..], ss)
  }

  /** itertools.product(values, repeat=length), in its order. */
  function Product(values: seq<int>, length: nat): seq<seq<int>> {
    if length == 0 then [[]] else PrependEach(values, Product(values, length - 1))
  }

  /** All schedules of at most m observations. */
  function Schedules(values: seq<int>, m: nat): seq<seq<int>> {
    (if m == 0 then [] else Schedules(values, m - 1)) + Product(values, m)
  }

  function RowsFrom(initial: int, ss: seq<seq<int>>, increment: int, update: bool): (r: seq<Result>)
    ensures |r| == |ss|
  {
    if ss == [] then []
    else [Simulate(initial, initial, ss[0], increment, update)] + RowsFrom(initial, ss[1..], increment, update)
  }

  function Rows(initials: seq<int>, ss: seq<seq<int>>, increment: int, update: bool): seq<Result> {
    if initials == [] then []
    else RowsFrom(initials[0], ss, increment, update) + Rows(initials[1..], ss, increment, update)
  }

  function Ends(r: Result, o: Outcome): nat {
    if r.Finished? && r.outcome == o then 1 else 0
  }

  function Count(rows: seq<Result>, o: Outcome): nat {
    if rows == [] then 0 else Ends(rows[0], o) + Count(rows[1..], o)
  }

  /** The rows of the aggregate: the same values are the initial and the interfering ones. */
  function Table(values: seq<int>, m: nat, increment: int, update: bool): seq<Result> {
    Rows(values, Schedules(values, m), increment, update)
  }

  // ----- closed forms

  function Pow(k: nat, l: nat): nat {
    if l == 0 then 1 else k * Pow(k, l - 1)
  }

  /** Schedules of length l on which the updating loop succeeds from one nonzero initial value. */
  function S(k: nat, l: nat): nat
    requires k >= 2
  {
    if l == 0 then 1 else Pow(k, l - 1) + (k - 2) * S(k, l - 1)
  }

  /** Those on which it exits on zero. */
  function Z(k: nat, l: nat): nat
    requires k >= 2
  {
    if l == 0 then 0 else Pow(k, l - 1) + (k - 2) * Z(k, l - 1)
  }

  predicate Distinct(vs: seq<int>) {
    vs == [] || (vs[0] !in vs[1..] && Distinct(vs[1..]))
  }

  predicate Domain(values: seq<int>) {
    |values| >= 2 && 0 in values && Distinct(values)
  }

  // ----- counting over the enumeration

  lemma {:induction false} CountAppend(a: seq<Result>, b: seq<Result>, o: Outcome)
    ensures Count(a + b, o) == Count(a, o) + Count(b, o)
  {
    if a == [] {
      assert a + b == b;
    } else {
      assert (a + b)[1..] == a[1..] + b;
      CountAppend(a[1..], b, o);
    }
  }

  lemma {:induction false} RowsFromAppend(x: int, a: seq<seq<int>>, b: seq<seq<int>>, inc: int, upd: bool)
    ensures RowsFrom(x, a + b, inc, upd) == RowsFrom(x, a, inc, upd) + RowsFrom(x, b, inc, upd)
  {
    if a == [] {
      assert a + b == b;
    } else {
      assert (a + b)[1..] == a[1..] + b;
      RowsFromAppend(x, a[1..], b, inc, upd);
    }
  }

  /** The rows of one initial value over one schedule length. */
  function CountFrom(x: int, ss: seq<seq<int>>, inc: int, upd: bool, o: Outcome): nat {
    Count(RowsFrom(x, ss, inc, upd), o)
  }

  lemma CountFromAppend(x: int, a: seq<seq<int>>, b: seq<seq<int>>, inc: int, upd: bool, o: Outcome)
    ensures CountFrom(x, a + b, inc, upd, o) == CountFrom(x, a, inc, upd, o) + CountFrom(x, b, inc, upd, o)
  {
    RowsFromAppend(x, a, b, inc, upd);
    CountAppend(RowsFrom(x, a, inc, upd), RowsFrom(x, b, inc, upd), o);
  }

  lemma CountFromCons(x: int, s: seq<int>, ss: seq<seq<int>>, inc: int, upd: bool, o: Outcome)
    ensures CountFrom(x, [s] + ss, inc, upd, o) == Ends(Simulate(x, x, s, inc, upd), o) + CountFrom(x, ss, inc, upd, o)
  {}

  lemma EndsPrepend(x: int, v: int, s: seq<int>, inc: int, o: Outcome)
    ensures Ends(Simulate(x, x, [v] + s, inc, true), o) ==
      if x == 0 then (if o == ZeroExit then 1 else 0)
      else if v == x then (if o == Successful then 1 else 0)
      else Ends(Simulate(v, v, s, inc, true), o)
  {}

  /** One more observation in front: it decides, or the loop goes on from the observed value. */
  lemma {:induction false} CountPrepend(x: int, v: int, ss: seq<seq<int>>, inc: int, o: Outcome)
    ensures CountFrom(x, Prepend(v, ss), inc, true, o) ==
      if x == 0 then (if o == ZeroExit then |ss| else 0)
      else if v == x then (if o == Successful then |ss| else 0)
      else CountFrom(v, ss, inc, true, o)
  {
    if ss != [] {
      EndsPrepend(x, v, ss[0], inc, o);
      CountFromCons(x, [v] + ss[0], Prepend(v, ss[1..]), inc, true, o);
      CountFromCons(v, ss[0], ss[1..], inc, true, o);
      assert [ss[0]] + ss[1..] == ss;
      CountPrepend(x, v, ss[1..], inc, o);
    }
  }

  lemma {:induction false} ProductSize(values: seq<int>, l: nat)
    ensures |Product(values, l)| == Pow(|values|, l)
  {
    if l > 0 {
      ProductSize(values, l - 1);
      PrependEachSize(values, Product(values, l - 1));
    }
  }

  lemma {:induction false} PrependEachSize(vs: seq<int>, ss: seq<seq<int>>)
    ensures |PrependEach(vs, ss)| == |vs| * |ss|
  {
    if vs != [] {
      PrependEachSize(vs[1..], ss);
      assert |vs| * |ss| == |ss| + (|vs| - 1) * |ss|;
    }
  }

  /** a for the value x, b for zero and c for every other value. */
  function Weights(vs: seq<int>, x: int, a: nat, b: nat, c: nat): nat {
    if vs == [] then 0
    else (if vs[0] == x then a else if vs[0] == 0 then b else c) + Weights(vs[1..], x, a, b, c)
  }

  lemma MulSucc(n: nat, c: nat)
    ensures (n + 1) * c == n * c + c
  {}

  lemma {:induction false} WeightsSum(vs: seq<int>, x: int, a: nat, b: nat, c: nat)
    requires x != 0 && Distinct(vs)
    ensures Weights(vs, x, a, b, c) + (if x in vs then c else 0) + (if 0 in vs then c else 0) ==
      (if x in vs then a else 0) + (if 0 in vs then b else 0) + |vs| * c
  {
    if vs != [] {
      WeightsSum(vs[1..], x, a, b, c);
      MulSucc(|vs[1..]|, c);
    }
  }

  /** For a domain holding both x and zero. */
  lemma WeightsOf(vs: seq<int>, x: int, a: nat, b: nat, c: nat)
    requires Domain(vs) && x in vs && x != 0
    ensures Weights(vs, x, a, b, c) == a + b + (|vs| - 2) * c
  {
    WeightsSum(vs, x, a, b, c);
    MulSucc(|vs| - 2, c);
    MulSucc(|vs| - 1, c);
  }

  /** Over a range of first observations: those equal to the initial value succeed at once, zero
      leads to a zero exit, and each other one contributes the same number. */
  lemma {:induction false} CountEach(x: int, vs: seq<int>, ss: seq<seq<int>>, inc: int, o: Outcome, each: nat)
    requires x != 0
    requires forall v | v in vs && v != 0 && v != x :: CountFrom(v, ss, inc, true, o) == each
    ensures CountFrom(x, PrependEach(vs, ss), inc, true, o) ==
      Weights(vs, x, if o == Successful then |ss| else 0, CountFrom(0, ss, inc, true, o), each)
  {
    if vs == [] {
      assert CountFrom(x, [], inc, true, o) == 0;
    } else {
      var v, rest := vs[0], vs[1..];
      assert v in vs && forall y | y in rest :: y in vs;
      CountPrepend(x, v, ss, inc, o);
      CountFromAppend(x, Prepend(v, ss), PrependEach(rest, ss), inc, true, o);
      CountEach(x, rest, ss, inc, o, each);
    }
  }

  lemma {:induction false} CountZero(ss: seq<seq<int>>, inc: int, upd: bool, o: Outcome)
    ensures CountFrom(0, ss, inc, upd, o) == if o == ZeroExit then |ss| else 0
  {
    if ss != [] {
      CountZero(ss[1..], inc, upd, o);
    }
  }

  /** The count for a nonzero initial value and one schedule length. */
  function PerValue(k: nat, l: nat, o: Outcome): nat
    requires k >= 2
  {
    match o
    case Successful => S(k, l)
    case ZeroExit => Z(k, l)
    case Nonterminating => 0
  }

  lemma PerValueStep(k: nat, l: nat, o: Outcome)
    requires k >= 2 && l > 0
    ensures PerValue(k, l, o) ==
      (if o == Successful then Pow(k, l - 1) else 0) + (if o == ZeroExit then Pow(k, l - 1) else 0) +
      (k - 2) * PerValue(k, l - 1, o)
  {}

  /** One more observation in front, when every other nonzero value leads to the same count. */
  lemma CountLonger(x: int, values: seq<int>, l: nat, inc: int, o: Outcome, each: nat)
    requires Domain(values) && x in values && x != 0 && l > 0
    requires forall v | v in values && v != 0 && v != x :: CountFrom(v, Product(values, l - 1), inc, true, o) == each
    ensures CountFrom(x, Product(values, l), inc, true, o) ==
      (if o == Successful then Pow(|values|, l - 1) else 0) + (if o == ZeroExit then Pow(|values|, l - 1) else 0) +
      (|values| - 2) * each
  {
    var ss := Product(values, l - 1);
    CountEach(x, values, ss, inc, o, each);
    CountZero(ss, inc, true, o);
    ProductSize(values, l - 1);
    WeightsOf(values, x, if o == Successful then |ss| else 0, if o == ZeroExit then |ss| else 0, each);
  }

  /** Every nonzero initial value has the same counts, given by the recurrences. */
  lemma {:induction false} CountUpdating(x: int, values: seq<int>, l: nat, inc: int, o: Outcome)
    requires Domain(values) && x in values && x != 0
    ensures CountFrom(x, Product(values, l), inc, true, o) == PerValue(|values|, l, o)
    decreases l
  {
    if l == 0 {
      CountFromCons(x, [], [], inc, true, o);
    } else {
      forall v | v in values && v != 0 && v != x
        ensures CountFrom(v, Product(values, l - 1), inc, true, o) == PerValue(|values|, l - 1, o)
      {
        CountUpdating(v, values, l - 1, inc, o);
      }
      CountLonger(x, values, l, inc, o, PerValue(|values|, l - 1, o));
      PerValueStep(|values|, l, o);
    }
  }

  lemma Distribute(n: nat, a: nat, b: nat)
    ensures n * (a + b) == n * a + n * b
  {}

  /** Success and zero exit together are all schedules. */
  lemma {:induction false} PerValueTotal(k: nat, l: nat)
    requires k >= 2
    ensures S(k, l) + Z(k, l) == Pow(k, l)
  {
    if l > 0 {
      PerValueTotal(k, l - 1);
      Distribute(k - 2, S(k, l - 1), Z(k, l - 1));
      MulSucc(k - 2, Pow(k, l - 1));
      MulSucc(k - 1, Pow(k, l - 1));
    }
  }

  // ----- the loop with the stale value

  /** How many schedules never show x. */
  function Avoiding(x: int, ss: seq<seq<int>>): nat {
    if ss == [] then 0 else (if x in ss[0] then 0 else 1) + Avoiding(x, ss[1..])
  }

  lemma {:induction false} AvoidingAppend(x: int, a: seq<seq<int>>, b: seq<seq<int>>)
    ensures Avoiding(x, a + b) == Avoiding(x, a) + Avoiding(x, b)
  {
    if a == [] {
      assert a + b == b;
    } else {
      assert (a + b)[1..] == a[1..] + b;
      AvoidingAppend(x, a[1..], b);
    }
  }

  lemma {:induction false} AvoidingPrepend(x: int, v: int, ss: seq<seq<int>>)
    ensures Avoiding(x, Prepend(v, ss)) == if v == x then 0 else Avoiding(x, ss)
  {
    if ss != [] {
      AvoidingPrepend(x, v, ss[1..]);
    }
  }

  lemma {:induction false} AvoidingEach(x: int, vs: seq<int>, ss: seq<seq<int>>)
    ensures Avoiding(x, PrependEach(vs, ss)) == Weights(vs, x, 0, Avoiding(x, ss), Avoiding(x, ss))
  {
    if vs != [] {
      AvoidingPrepend(x, vs[0], ss);
      AvoidingAppend(x, Prepend(vs[0], ss), PrependEach(vs[1..], ss));
      AvoidingEach(x, vs[1..], ss);
    }
  }

  lemma {:induction false} AvoidingProduct(x: int, values: seq<int>, l: nat)
    requires Domain(values) && x in values && x != 0
    ensures Avoiding(x, Product(values, l)) == Pow(|values| - 1, l)
  {
    if l == 0 {
      assert Avoiding(x, [[]]) == 1 + Avoiding(x, [[]][1..]);
    } else {
      AvoidingProduct(x, values, l - 1);
      var n := Pow(|values| - 1, l - 1);
      AvoidingEach(x, values, Product(values, l - 1));
      WeightsOf(values, x, 0, n, n);
      MulSucc(|values| - 2, n);
    }
  }

  lemma {:induction false} StaleHangs(x: int, ss: seq<seq<int>>, inc: int)
    requires x != 0 && forall i | 0 <= i < |ss| :: ss[i] != []
    ensures CountFrom(x, ss, inc, false, Nonterminating) == Avoiding(x, ss)
    ensures CountFrom(x, ss, inc, false, ZeroExit) == 0
    ensures CountFrom(x, ss, inc, false, Successful) + Avoiding(x, ss) == |ss|
  {
    if ss != [] {
      StaleOutcome(x, ss[0], inc);
      StaleHangs(x, ss[1..], inc);
    }
  }

  lemma {:induction false} ProductLengths(values: seq<int>, l: nat)
    ensures forall i | 0 <= i < |Product(values, l)| :: |Product(values, l)[i]| == l
  {
    if l > 0 {
      ProductLengths(values, l - 1);
      PrependEachLengths(values, Product(values, l - 1), l - 1);
    }
  }

  lemma {:induction false} PrependEachLengths(vs: seq<int>, ss: seq<seq<int>>, l: nat)
    requires forall i | 0 <= i < |ss| :: |ss[i]| == l
    ensures forall i | 0 <= i < |PrependEach(vs, ss)| :: |PrependEach(vs, ss)[i]| == l + 1
  {
    if vs != [] {
      PrependEachLengths(vs[1..], ss, l);
      PrependLengths(vs[0], ss, l);
    }
  }

  lemma {:induction false} PrependLengths(v: int, ss: seq<seq<int>>, l: nat)
    requires forall i | 0 <= i < |ss| :: |ss[i]| == l
    ensures forall i | 0 <= i < |Prepend(v, ss)| :: |Prepend(v, ss)[i]| == l + 1
  {
    if ss != [] {
      PrependLengths(v, ss[1..], l);
    }
  }

  /** The stale counts for a nonzero initial value and one schedule length. */
  function PerValueStale(k: nat, l: nat, o: Outcome): int
    requires k >= 2
  {
    var hangs := if l == 0 then 0 else Pow(k - 1, l);
    match o
    case Successful => Pow(k, l) - hangs
    case ZeroExit => 0
    case Nonterminating => hangs
  }

  lemma CountStale(x: int, values: seq<int>, l: nat, inc: int, o: Outcome)
    requires Domain(values) && x in values && x != 0
    ensures CountFrom(x, Product(values, l), inc, false, o) == PerValueStale(|values|, l, o)
  {
    if l == 0 {
      CountFromCons(x, [], [], inc, false, o);
    } else {
      ProductLengths(values, l);
      ProductSize(values, l);
      AvoidingProduct(x, values, l);
      StaleHangs(x, Product(values, l), inc);
    }
  }

  // ----- totals over all lengths and all initial values

  function SumPow(k: nat, m: nat): nat {
    (if m == 0 then 0 else SumPow(k, m - 1)) + Pow(k, m)
  }

  function SumS(k: nat, m: nat): nat
    requires k >= 2
  {
    (if m == 0 then 0 else SumS(k, m - 1)) + S(k, m)
  }

  function SumZ(k: nat, m: nat): nat
    requires k >= 2
  {
    (if m == 0 then 0 else SumZ(k, m - 1)) + Z(k, m)
  }

  /** A nonzero initial value over all schedules of at most m observations. */
  function Total(k: nat, m: nat, update: bool, o: Outcome): int
    requires k >= 2
  {
    if update then
      match o
      case Successful => SumS(k, m)
      case ZeroExit => SumZ(k, m)
      case Nonterminating => 0
    else
      match o
      case Successful => SumPow(k, m) - (SumPow(k - 1, m) - 1)
      case ZeroExit => 0
      case Nonterminating => SumPow(k - 1, m) - 1
  }

  /** The count for a nonzero initial value and one schedule length, either loop. */
  function AtLength(k: nat, l: nat, update: bool, o: Outcome): int
    requires k >= 2
  {
    if update then PerValue(k, l, o) else PerValueStale(k, l, o)
  }

  lemma CountLength(x: int, values: seq<int>, l: nat, inc: int, upd: bool, o: Outcome)
    requires Domain(values) && x in values && x != 0
    ensures CountFrom(x, Product(values, l), inc, upd, o) == AtLength(|values|, l, upd, o)
  {
    if upd {
      CountUpdating(x, values, l, inc, o);
    } else {
      CountStale(x, values, l, inc, o);
    }
  }

  lemma TotalStep(k: nat, m: nat, upd: bool, o: Outcome)
    requires k >= 2
    ensures Total(k, m, upd, o) == (if m == 0 then 0 else Total(k, m - 1, upd, o)) + AtLength(k, m, upd, o)
  {}

  lemma CountOneMore(x: int, values: seq<int>, m: nat, inc: int, upd: bool, o: Outcome, before: int, at: int)
    requires m > 0 && CountFrom(x, Schedules(values, m - 1), inc, upd, o) == before
    requires CountFrom(x, Product(values, m), inc, upd, o) == at
    ensures CountFrom(x, Schedules(values, m), inc, upd, o) == before + at
  {
    CountFromAppend(x, Schedules(values, m - 1), Product(values, m), inc, upd, o);
  }

  lemma {:induction false} CountTotal(x: int, values: seq<int>, m: nat, inc: int, upd: bool, o: Outcome)
    requires Domain(values) && x in values && x != 0
    ensures CountFrom(x, Schedules(values, m), inc, upd, o) == Total(|values|, m, upd, o)
  {
    CountLength(x, values, m, inc, upd, o);
    TotalStep(|values|, m, upd, o);
    if m == 0 {
      assert Schedules(values, 0) == Product(values, 0);
    } else {
      CountTotal(x, values, m - 1, inc, upd, o);
      CountOneMore(x, values, m, inc, upd, o, Total(|values|, m - 1, upd, o), AtLength(|values|, m, upd, o));
    }
  }

  lemma {:induction false} SchedulesSize(values: seq<int>, m: nat)
    ensures |Schedules(values, m)| == SumPow(|values|, m)
  {
    ProductSize(values, m);
    if m > 0 {
      SchedulesSize(values, m - 1);
    }
  }

  lemma {:induction false} CountRows(vs: seq<int>, values: seq<int>, m: nat, inc: int, upd: bool, o: Outcome, x: int)
    requires Domain(values) && x in values && x != 0 && forall v | v in vs :: v in values
    ensures Total(|values|, m, upd, o) >= 0
    ensures Count(Rows(vs, Schedules(values, m), inc, upd), o) ==
      Weights(vs, x, Total(|values|, m, upd, o), if o == ZeroExit then SumPow(|values|, m) else 0,
              Total(|values|, m, upd, o))
  {
    CountTotal(x, values, m, inc, upd, o);
    if vs != [] {
      var ss := Schedules(values, m);
      assert vs[0] in vs && forall v | v in vs[1..] :: v in vs;
      CountRows(vs[1..], values, m, inc, upd, o, x);
      CountAppend(RowsFrom(vs[0], ss, inc, upd), Rows(vs[1..], ss, inc, upd), o);
      if vs[0] == 0 {
        CountZero(ss, inc, upd, o);
        SchedulesSize(values, m);
      } else {
        CountTotal(vs[0], values, m, inc, upd, o);
      }
    }
  }

  lemma Nonzero(values: seq<int>) returns (x: int)
    requires Domain(values)
    ensures x in values && x != 0
  {
    x := if values[0] != 0 then values[0] else values[1];
  }

  /** The counting laws, for every domain of at least two values with zero among them, every bound
      on the number of observations and every increment. */
  lemma UpdatingCounts(values: seq<int>, m: nat, inc: int)
    requires Domain(values)
    ensures var k, rows := |values|, Table(values, m, inc, true);
      Count(rows, Successful) == (k - 1) * SumS(k, m) &&
      Count(rows, ZeroExit) == SumPow(k, m) + (k - 1) * SumZ(k, m) &&
      Count(rows, Nonterminating) == 0
  {
    TableCount(values, m, inc, true, Successful);
    TableCount(values, m, inc, true, ZeroExit);
    TableCount(values, m, inc, true, Nonterminating);
  }

  lemma StaleCounts(values: seq<int>, m: nat, inc: int)
    requires Domain(values)
    ensures var k, rows := |values|, Table(values, m, inc, false);
      Count(rows, Successful) == (k - 1) * (SumPow(k, m) - SumPow(k - 1, m) + 1) &&
      Count(rows, ZeroExit) == SumPow(k, m) &&
      Count(rows, Nonterminating) == (k - 1) * (SumPow(k - 1, m) - 1)
  {
    TableCount(values, m, inc, false, Successful);
    TableCount(values, m, inc, false, ZeroExit);
    TableCount(values, m, inc, false, Nonterminating);
  }

  lemma TableCount(values: seq<int>, m: nat, inc: int, upd: bool, o: Outcome)
    requires Domain(values)
    ensures Count(Table(values, m, inc, upd), o) ==
      (if o == ZeroExit then SumPow(|values|, m) else 0) + (|values| - 1) * Total(|values|, m, upd, o)
  {
    var x := Nonzero(values);
    CountRows(values, values, m, inc, upd, o, x);
    var t := Total(|values|, m, upd, o);
    WeightsOf(values, x, t, if o == ZeroExit then SumPow(|values|, m) else 0, t);
    MulSucc(|values| - 2, t);
  }

  /** The number of rows is the number of initial values times the number of schedules. */
  lemma TableSize(values: seq<int>, m: nat, inc: int, upd: bool)
    ensures |Table(values, m, inc, upd)| == |values| * SumPow(|values|, m)
  {
    SchedulesSize(values, m);
    RowsSize(values, Schedules(values, m), inc, upd);
  }

  lemma {:induction false} RowsSize(vs: seq<int>, ss: seq<seq<int>>, inc: int, upd: bool)
    ensures |Rows(vs, ss, inc, upd)| == |vs| * |ss|
  {
    if vs != [] {
      RowsSize(vs[1..], ss, inc, upd);
      MulSucc(|vs[1..]|, |ss|);
    }
  }

  // ----- the largest numbers of attempts and failures

  function MaxAttempts(rows: seq<Result>): nat {
    if rows == [] then 0
    else
      var rest, a := MaxAttempts(rows[1..]), if rows[0].Finished? then rows[0].attempts else 0;
      if a > rest then a else rest
  }

  function MaxFailures(rows: seq<Result>): nat {
    if rows == [] then 0
    else
      var rest, f := MaxFailures(rows[1..]), if rows[0].Finished? then rows[0].failures else 0;
      if f > rest then f else rest
  }

  /** Every schedule over the values is enumerated. */
  lemma {:induction false} ProductHas(values: seq<int>, s: seq<int>)
    requires forall i | 0 <= i < |s| :: s[i] in values
    ensures s in Product(values, |s|)
  {
    if s != [] {
      ProductHas(values, s[1..]);
      PrependEachHas(values, Product(values, |s| - 1), s);
    }
  }

  lemma {:induction false} PrependEachHas(vs: seq<int>, ss: seq<seq<int>>, s: seq<int>)
    requires s != [] && s[0] in vs && s[1..] in ss
    ensures s in PrependEach(vs, ss)
  {
    if s[0] == vs[0] {
      PrependHas(s[0], ss, s);
    } else {
      PrependEachHas(vs[1..], ss, s);
    }
  }

  lemma {:induction false} PrependHas(v: int, ss: seq<seq<int>>, s: seq<int>)
    requires s != [] && s[0] == v && s[1..] in ss
    ensures s in Prepend(v, ss)
  {
    if ss[0] == s[1..] {
      assert s == [v] + ss[0];
    } else {
      PrependHas(v, ss[1..], s);
    }
  }

  lemma {:induction false} RowsFromHas(x: int, ss: seq<seq<int>>, s: seq<int>, inc: int, upd: bool)
    requires s in ss
    ensures Simulate(x, x, s, inc, upd) in RowsFrom(x, ss, inc, upd)
  {
    if ss[0] != s {
      RowsFromHas(x, ss[1..], s, inc, upd);
    }
  }

  lemma {:induction false} RowsHas(vs: seq<int>, x: int, ss: seq<seq<int>>, s: seq<int>, inc: int, upd: bool)
    requires x in vs && s in ss
    ensures Simulate(x, x, s, inc, upd) in Rows(vs, ss, inc, upd)
  {
    RowsFromHas(x, ss, s, inc, upd);
    if vs[0] != x {
      RowsHas(vs[1..], x, ss, s, inc, upd);
    }
  }

  lemma {:induction false} MaxAtLeast(rows: seq<Result>, r: Result)
    requires r in rows && r.Finished?
    ensures r.attempts <= MaxAttempts(rows) && r.failures <= MaxFailures(rows)
  {
    if rows[0] != r {
      MaxAtLeast(rows[1..], r);
    }
  }

  predicate Within(rows: seq<Result>, attempts: nat, failures: nat) {
    forall i | 0 <= i < |rows| :: rows[i].Finished? && rows[i].attempts <= attempts && rows[i].failures <= failures
  }

  lemma {:induction false} MaxWithin(rows: seq<Result>, attempts: nat, failures: nat)
    requires Within(rows, attempts, failures)
    ensures MaxAttempts(rows) <= attempts && MaxFailures(rows) <= failures
  {
    if rows != [] {
      MaxWithin(rows[1..], attempts, failures);
    }
  }

  lemma {:induction false} RowsFromWithin(x: int, ss: seq<seq<int>>, m: nat, inc: int, upd: bool)
    requires forall i | 0 <= i < |ss| :: |ss[i]| <= m
    ensures Within(RowsFrom(x, ss, inc, upd), m + 1, if upd then m else m + 1)
  {
    if ss != [] {
      RowsFromWithin(x, ss[1..], m, inc, upd);
      UpdatingBound(x, ss[0], inc);
      StaleOutcome(x, ss[0], inc);
    }
  }

  lemma {:induction false} RowsWithin(vs: seq<int>, ss: seq<seq<int>>, m: nat, inc: int, upd: bool)
    requires forall i | 0 <= i < |ss| :: |ss[i]| <= m
    ensures Within(Rows(vs, ss, inc, upd), m + 1, if upd then m else m + 1)
  {
    if vs != [] {
      RowsFromWithin(vs[0], ss, m, inc, upd);
      RowsWithin(vs[1..], ss, m, inc, upd);
    }
  }

  lemma {:induction false} SchedulesLengths(values: seq<int>, m: nat)
    ensures forall i | 0 <= i < |Schedules(values, m)| :: |Schedules(values, m)[i]| <= m
  {
    ProductLengths(values, m);
    if m > 0 {
      SchedulesLengths(values, m - 1);
    }
  }

  /** With a second nonzero value the updating loop needs m + 1 attempts and m failures at most, and
      somewhere exactly that; no row raises the disagreement error. */
  lemma UpdatingMaxima(values: seq<int>, m: nat, inc: int, a: int, b: int)
    requires a in values && b in values && a != b && a != 0 && b != 0
    ensures var rows := Table(values, m, inc, true);
      Within(rows, m + 1, m) && MaxAttempts(rows) == m + 1 && MaxFailures(rows) == m
  {
    var rows, s := Table(values, m, inc, true), Alternating(a, b, m);
    SchedulesLengths(values, m);
    RowsWithin(values, Schedules(values, m), m, inc, true);
    MaxWithin(rows, m + 1, m);
    ProductHas(values, s);
    RowsHas(values, a, Schedules(values, m), s, inc, true);
    BoundAttained(a, b, m, inc);
    MaxAtLeast(rows, Simulate(a, a, s, inc, true));
  }

  /** The stale loop reaches m + 1 attempts and, once there is any interference, m + 1 failures. */
  lemma StaleMaxima(values: seq<int>, m: nat, inc: int, a: int)
    requires 0 in values && a in values && a != 0
    ensures var rows := Table(values, m, inc, false);
      Within(rows, m + 1, m + 1) && MaxAttempts(rows) == m + 1 && (m > 0 ==> MaxFailures(rows) == m + 1)
  {
    var rows, s := Table(values, m, inc, false), seq(m, _ => 0);
    SchedulesLengths(values, m);
    RowsWithin(values, Schedules(values, m), m, inc, false);
    MaxWithin(rows, m + 1, m + 1);
    ProductHas(values, s);
    RowsHas(values, a, Schedules(values, m), s, inc, false);
    StaleFrom(a, a, s, inc);
    MaxAtLeast(rows, Simulate(a, a, s, inc, false));
  }

  /** The pinned totals are the laws at four values and at most three observations. */
  lemma PinnedTotals(values: seq<int>, m: nat, inc: int)
    requires values == [0, 1, 2, 3] && m == 3
    ensures var rows := Table(values, m, inc, true);
      |rows| == 340 && Count(rows, Successful) == 150 && Count(rows, ZeroExit) == 190 &&
      Count(rows, Nonterminating) == 0 && MaxAttempts(rows) == 4 && MaxFailures(rows) == 3
    ensures var rows := Table(values, m, inc, false);
      |rows| == 340 && Count(rows, Successful) == 138 && Count(rows, ZeroExit) == 85 &&
      Count(rows, Nonterminating) == 117 && MaxAttempts(rows) == 4 && MaxFailures(rows) == 4
  {
    PinnedDomain(values);
    PinnedSums();
    TableSize(values, m, inc, true);
    TableSize(values, m, inc, false);
    UpdatingCounts(values, m, inc);
    StaleCounts(values, m, inc);
    UpdatingMaxima(values, m, inc, 1, 2);
    StaleMaxima(values, m, inc, 1);
  }

  lemma PinnedDomain(values: seq<int>)
    requires values == [0, 1, 2, 3]
    ensures Domain(values) && 0 in values && 1 in values && 2 in values
  {
    assert values[1..] == [1, 2, 3] && [1, 2, 3][1..] == [2, 3] && [2, 3][1..] == [3];
    assert Distinct([3]) && Distinct([2, 3]) && Distinct([1, 2, 3]);
  }

  lemma PinnedSums()
    ensures SumPow(4, 3) == 85 && SumPow(3, 3) == 40 && SumS(4, 3) == 50 && SumZ(4, 3) == 35
  {}
}

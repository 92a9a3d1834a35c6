/** Per display counts of how operations ended, by the number of tries they took. */
module RetryHistogram {

  import opened StatusCodes

  const MAX_MAX_TRIES := 15
  const COUNTERS := MAX_MAX_TRIES + 2
  const RETRY_OPS := 4
  const WRAP := 0x1_0000

  type Retry = t: int | 0 <= t < RETRY_OPS
  type Counter = c: int | 0 <= c < WRAP
  type Row = r: seq<Counter> | |r| == COUNTERS witness seq(COUNTERS, _ => 0)

  /** An operation that ended: of which type, with what status, after how many tries. */
  datatype Operation = Operation(retry: Retry, rc: int, tries: int)

  /** A success must have taken a number of tries that there is a counter for; otherwise the number is not looked at. */
  predicate Recordable(op: Operation) {
    op.rc == 0 ==> 0 <= op.tries + 1 < COUNTERS
  }

  /** Counter 0 is for fatal failures, 1 for too many tries, n + 1 for success at try n. */
  function SlotOf(op: Operation): (i: nat)
    requires Recordable(op)
    ensures i < COUNTERS
  {
    if op.rc == 0 then op.tries + 1
    else if op.rc == DDCRC_RETRIES || op.rc == DDCRC_ALL_TRIES_ZERO then 1
    else 0
  }

  // What the counters should say

  predicate AllRecordable(ops: seq<Operation>) {
    forall k :: 0 <= k < |ops| ==> Recordable(ops[k])
  }

  /** How many of the operations belong to a counter. */
  function Occurrences(ops: seq<Operation>, t: Retry, i: nat): (n: nat)
    requires AllRecordable(ops) && i < COUNTERS
    ensures n <= |ops|
  {
    if ops == [] then 0
    else
      var last := ops[|ops| - 1];
      Occurrences(ops[..|ops| - 1], t, i) + if last.retry == t && SlotOf(last) == i then 1 else 0
  }

  /** How many of the operations are of a type. */
  function OfType(ops: seq<Operation>, t: Retry): nat {
    if ops == [] then 0
    else OfType(ops[..|ops| - 1], t) + if ops[|ops| - 1].retry == t then 1 else 0
  }

  /** The occurrences that the counters below n stand for. */
  function OccurrencesBelow(ops: seq<Operation>, t: Retry, n: nat): nat
    requires AllRecordable(ops) && n <= COUNTERS
  {
    if n == 0 then 0 else OccurrencesBelow(ops, t, n - 1) + Occurrences(ops, t, n - 1)
  }

  lemma {:induction false} OneMoreOccurrence(ops: seq<Operation>, op: Operation, t: Retry, n: nat)
    requires AllRecordable(ops) && Recordable(op) && n <= COUNTERS
    ensures OccurrencesBelow(ops + [op], t, n)
         == OccurrencesBelow(ops, t, n) + if op.retry == t && SlotOf(op) < n then 1 else 0
  {
    if n > 0 {
      OneMoreOccurrence(ops, op, t, n - 1);
      OccurrencesNext(ops, op, t, n - 1);
    }
  }

  /** Every operation belongs to exactly one counter of its type. */
  lemma {:induction false} CountersCoverOperations(ops: seq<Operation>, t: Retry)
    requires AllRecordable(ops)
    ensures OccurrencesBelow(ops, t, COUNTERS) == OfType(ops, t)
  {
    if ops == [] {
      NoOccurrences(t, COUNTERS);
    } else {
      var n := |ops| - 1;
      CountersCoverOperations(ops[..n], t);
      OneMoreOccurrence(ops[..n], ops[n], t, COUNTERS);
      assert ops[..n] + [ops[n]] == ops;
    }
  }

  lemma {:induction false} NoOccurrences(t: Retry, n: nat)
    requires n <= COUNTERS
    ensures OccurrencesBelow([], t, n) == 0
  {
    if n > 0 {
      NoOccurrences(t, n - 1);
    }
  }

  // Sums of counters

  function Sum(row: seq<Counter>): nat {
    if row == [] then 0 else Sum(row[..|row| - 1]) + row[|row| - 1]
  }

  /** The last success counter that is not zero, or 1. */
  function Highest(row: Row): (h: nat)
    ensures 1 <= h < COUNTERS
    ensures forall k :: h < k < COUNTERS ==> row[k] == 0
    ensures h > 1 ==> row[h] != 0
  {
    HighestUpTo(row, COUNTERS - 1)
  }

  function HighestUpTo(row: Row, n: nat): (h: nat)
    requires 1 <= n < COUNTERS
    ensures 1 <= h <= n
    ensures forall k :: h < k <= n ==> row[k] == 0
    ensures h > 1 ==> row[h] != 0
  {
    if n == 1 || row[n] != 0 then n else HighestUpTo(row, n - 1)
  }

  lemma {:induction false} SumOfZeros(row: seq<Counter>, n: nat)
    requires n <= |row| && forall k :: n <= k < |row| ==> row[k] == 0
    ensures Sum(row) == Sum(row[..n])
    decreases |row|
  {
    if n < |row| {
      SumOfZeros(row[..|row| - 1], n);
      assert row[..|row| - 1][..n] == row[..n];
    } else {
      assert row[..n] == row;
    }
  }

  lemma {:induction false} SumAppend(a: seq<Counter>, b: seq<Counter>)
    ensures Sum(a + b) == Sum(a) + Sum(b)
    decreases |b|
  {
    if b == [] {
      assert a + b == a;
    } else {
      SumAppend(a, b[..|b| - 1]);
      assert (a + b)[..|a + b| - 1] == a + b[..|b| - 1];
    }
  }

  lemma {:induction false} PrefixSum(row: seq<Counter>, n: nat)
    requires n < |row|
    ensures Sum(row[..n + 1]) == Sum(row[..n]) + row[n]
  {
    assert row[..n + 1][..n] == row[..n];
  }

  lemma SliceSum(row: seq<Counter>, m: nat, n: nat)
    requires m <= n < |row|
    ensures Sum(row[m..n + 1]) == Sum(row[m..n]) + row[n]
  {
    assert row[m..n + 1][..n - m] == row[m..n];
  }

  /** Leaving out the counters past the highest success loses nothing, whatever the counters are. */
  lemma TruncatedSumIsWhole(row: Row)
    ensures Sum(row[2..Highest(row) + 1]) + row[0] + row[1] == Sum(row)
  {
    var h := Highest(row);
    SumOfZeros(row, h + 1);
    assert row[..h + 1] == row[..2] + row[2..h + 1];
    SumAppend(row[..2], row[2..h + 1]);
    PrefixSum(row, 0);
    PrefixSum(row, 1);
    assert row[..0] == [];
  }

  // What is recorded

  /** A row says how often each of its counters occurred, as far as 16 bits can. */
  predicate Tells(row: Row, ops: seq<Operation>, t: Retry)
    requires AllRecordable(ops)
  {
    forall i :: 0 <= i < COUNTERS ==> row[i] == Occurrences(ops, t, i) % WRAP
  }

  lemma WrapNext(n: nat)
    ensures (n % WRAP + 1) % WRAP == (n + 1) % WRAP
  {
    assert n + 1 == WRAP * (n / WRAP) + (n % WRAP + 1);
  }

  /** Adding one to the counter of an operation keeps the rows true. */
  lemma OneMoreTells(before: Row, after: Row, ops: seq<Operation>, op: Operation, u: Retry)
    requires AllRecordable(ops) && Recordable(op) && Tells(before, ops, u)
    requires forall i :: 0 <= i < COUNTERS ==>
               after[i] == if u == op.retry && i == SlotOf(op) then (before[i] + 1) % WRAP else before[i]
    ensures Tells(after, ops + [op], u)
  {
    forall i | 0 <= i < COUNTERS ensures after[i] == Occurrences(ops + [op], u, i) % WRAP {
      CounterTells(before[i], after[i], ops, op, u, i);
    }
  }

  lemma CounterTells(before: Counter, after: Counter, ops: seq<Operation>, op: Operation, u: Retry, i: nat)
    requires AllRecordable(ops) && Recordable(op) && i < COUNTERS
    requires before == Occurrences(ops, u, i) % WRAP
    requires after == if u == op.retry && i == SlotOf(op) then (before + 1) % WRAP else before
    ensures AllRecordable(ops + [op]) && after == Occurrences(ops + [op], u, i) % WRAP
  {
    OccurrencesNext(ops, op, u, i);
    WrapNext(Occurrences(ops, u, i));
  }

  lemma OccurrencesNext(ops: seq<Operation>, op: Operation, t: Retry, i: nat)
    requires AllRecordable(ops) && Recordable(op) && i < COUNTERS
    ensures AllRecordable(ops + [op])
    ensures Occurrences(ops + [op], t, i) == Occurrences(ops, t, i) + if op.retry == t && SlotOf(op) == i then 1 else 0
  {
    assert (ops + [op])[..|ops|] == ops;
  }

  // The counters one by one

  /** The first counter is for operations that failed for good, the second for those that ran out
      of tries, and the others are for successes, by the number of tries they took. */
  predicate BelongsTo(t: Retry, i: int, op: Operation) {
    op.retry == t && if op.rc == 0 then i == op.tries + 1 else i == if op.rc in {-3007, -3004} then 1 else 0
  }

  function HowMany(ops: seq<Operation>, p: Operation -> bool): nat {
    if ops == [] then 0 else HowMany(ops[..|ops| - 1], p) + if p(ops[|ops| - 1]) then 1 else 0
  }

  lemma {:induction false} OccurrencesAre(ops: seq<Operation>, t: Retry, i: nat, p: Operation -> bool)
    requires AllRecordable(ops) && i < COUNTERS
    requires forall op :: Recordable(op) ==> (p(op) <==> op.retry == t && SlotOf(op) == i)
    ensures Occurrences(ops, t, i) == HowMany(ops, p)
    decreases |ops|
  {
    if ops != [] {
      OccurrencesAre(ops[..|ops| - 1], t, i, p);
    }
  }

  /** A counter says how many of the operations belong to it, modulo 65536. */
  lemma CountersSay(row: Row, ops: seq<Operation>, t: Retry, i: nat)
    requires AllRecordable(ops) && Tells(row, ops, t) && i < 17
    ensures row[i] == HowMany(ops, op => BelongsTo(t, i, op)) % 65536
  {
    OccurrencesAre(ops, t, i, op => BelongsTo(t, i, op));
  }

  /** None of the counters below n was counted past what it holds. */
  predicate NoneWraps(ops: seq<Operation>, t: Retry, n: nat)
    requires AllRecordable(ops) && n <= COUNTERS
  {
    forall i :: 0 <= i < n ==> Occurrences(ops, t, i) < WRAP
  }

  lemma {:induction false} SumTells(row: Row, ops: seq<Operation>, t: Retry, n: nat)
    requires AllRecordable(ops) && Tells(row, ops, t) && n <= COUNTERS
    ensures Sum(row[..n]) <= OccurrencesBelow(ops, t, n)
    ensures Sum(row[..n]) == OccurrencesBelow(ops, t, n) <==> NoneWraps(ops, t, n)
  {
    if n > 0 {
      SumTells(row, ops, t, n - 1);
      PrefixSum(row, n - 1);
      var last := Occurrences(ops, t, n - 1);
      assert row[n - 1] == last % WRAP <= last;
      assert NoneWraps(ops, t, n) <==> NoneWraps(ops, t, n - 1) && last < WRAP;
    }
  }

  /** The counters of a type add up to the operations of that type if and only if none of them wrapped. */
  lemma SumCountsOperationsIff(row: Row, ops: seq<Operation>, t: Retry)
    requires AllRecordable(ops) && Tells(row, ops, t)
    ensures Sum(row) == OfType(ops, t) <==> NoneWraps(ops, t, COUNTERS)
  {
    SumTells(row, ops, t, |row|);
    CountersCoverOperations(ops, t);
    assert row[..|row|] == row;
  }

  // The counters in place

  class PerDisplayData {
    const counters: array2<Counter>
    ghost var ops: seq<Operation>

    ghost predicate Valid()
      reads this, counters
    {
      && counters.Length0 == RETRY_OPS && counters.Length1 == COUNTERS
      && AllRecordable(ops)
      && forall t: Retry :: Tells(RowOf(t), ops, t)
    }

    ghost function RowOf(t: Retry): (row: Row)
      requires counters.Length0 == RETRY_OPS && counters.Length1 == COUNTERS
      reads counters
      ensures forall i :: 0 <= i < COUNTERS ==> row[i] == counters[t, i]
    {
      seq(COUNTERS, i requires 0 <= i < COUNTERS reads counters => counters[t, i])
    }

    constructor ()
      ensures Valid() && ops == [] && fresh(counters)
    {
      counters := new Counter[RETRY_OPS, COUNTERS]((_, _) => 0);
      ops := [];
    }

    /** drd_record_display_tries() */
    method Record(t: Retry, rc: int, tryct: int)
      requires Valid() && Recordable(Operation(t, rc, tryct))
      modifies this, counters
      ensures Valid() && ops == old(ops) + [Operation(t, rc, tryct)]
      ensures forall u: Retry :: u != t ==> RowOf(u) == old(RowOf(u))
    {
      var index := 0;
      if rc == 0 {
        index := tryct + 1;
      } else if rc == DDCRC_RETRIES || rc == DDCRC_ALL_TRIES_ZERO {
        index := 1;
      } else {
        index := 0;
      }
      counters[t, index] := (counters[t, index] + 1) % WRAP;
      ops := ops + [Operation(t, rc, tryct)];
      assert ops[..|ops| - 1] == old(ops);
      forall u: Retry ensures Tells(RowOf(u), ops, u) {
        OneMoreTells(old(RowOf(u)), RowOf(u), old(ops), Operation(t, rc, tryct), u);
      }
    }

    /** get_display_total_tries_for_one_type_by_data() */
    method Total(t: Retry) returns (total: nat)
      requires Valid()
      ensures total == Sum(RowOf(t))
      ensures total == OfType(ops, t) <==> NoneWraps(ops, t, COUNTERS)
    {
      total := 0;
      var ndx := 0;
      while ndx < COUNTERS
        invariant 0 <= ndx <= COUNTERS && total == Sum(RowOf(t)[..ndx])
      {
        PrefixSum(RowOf(t), ndx);
        total := total + counters[t, ndx];
        ndx := ndx + 1;
      }
      assert RowOf(t)[..COUNTERS] == RowOf(t);
      SumCountsOperationsIff(RowOf(t), ops, t);
    }

    /** display_index_of_highest_non_zero_counter() */
    method IndexOfHighest(t: Retry) returns (result: nat)
      requires Valid()
      ensures result == Highest(RowOf(t))
    {
      result := 1;
      var kk := MAX_MAX_TRIES + 1;
      while kk > 1
        invariant 1 <= kk < COUNTERS && result == 1
        invariant HighestUpTo(RowOf(t), COUNTERS - 1) == HighestUpTo(RowOf(t), kk)
      {
        if counters[t, kk] != 0 {
          result := kk;
          break;
        }
        kk := kk - 1;
      }
    }

    /** The figures that report_display_try_typed_data_by_data() prints, none if there is nothing to report. */
    method Report(t: Retry) returns (total: nat, successes: nat)
      requires Valid()
      ensures total == Sum(RowOf(t))
      ensures successes + RowOf(t)[0] + RowOf(t)[1] == total
    {
      total := Total(t);
      var last := IndexOfHighest(t);
      successes := 0;
      var ndx := 2;
      ghost var row := RowOf(t);
      while ndx <= last
        invariant 2 <= ndx && (ndx <= last + 1 || ndx == 2) && successes == Sum(row[2..ndx])
      {
        SliceSum(row, 2, ndx);
        successes := successes + counters[t, ndx];
        ndx := ndx + 1;
      }
      TruncatedSumIsWhole(row);
      var all := successes + counters[t, 0] + counters[t, 1];
      assert all == total;
    }
  }
}

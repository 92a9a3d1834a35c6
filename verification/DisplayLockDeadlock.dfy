/** When no thread inside a display lock call can go on. */
module DisplayLockDeadlock {
  import opened DisplayLock
  import opened DisplayLockSafety
  import opened Options

  predicate Inside(s: State, t: Tid) {
    !Outside(PcOf(s, t))
  }

  /** No thread inside a call can take its next step. */
  ghost predicate NobodyRuns(s: State)
    requires Shape(s)
  {
    forall t: Tid, call: Call :: Inside(s, t) ==> Step(s, t, call).None?
  }

  /** A thread waits for a display mutex that a thread holds. */
  predicate Waits(s: State, t: Tid) {
    PcOf(s, t).LockWait? && PcOf(s, t).rec < |s.mutex| && s.mutex[PcOf(s, t).rec].Some?
  }

  function WaitsFor(s: State, t: Tid): Tid
    requires Waits(s, t)
  {
    s.mutex[PcOf(s, t).rec].value
  }

  /** Each thread waits for the next. */
  predicate Chain(s: State, ts: seq<Tid>) {
    forall k :: 0 <= k < |ts| - 1 ==> Waits(s, ts[k]) && WaitsFor(s, ts[k]) == ts[k + 1]
  }

  /** A chain that ends with a thread outside any call, or comes back to one of its threads. */
  predicate DeadEnd(s: State, ts: seq<Tid>) {
    && |ts| > 1 && Chain(s, ts)
    && var last := ts[|ts| - 1];
    Outside(PcOf(s, last)) || last in ts[..|ts| - 1]
  }

  ghost predicate IsStuck(s: State, t: Tid) {
    exists ts: seq<Tid> :: DeadEnd(s, ts) && ts[0] == t
  }

  lemma BlockedThreadWaits(s: State, t: Tid)
    requires Inv(s) && NobodyRuns(s) && Inside(s, t)
    ensures Waits(s, t)
  {
    var call := UnlockRecord(0);
    assert Step(s, t, call).None?;
    BlockedBy(s, t, call);
    if s.master.Some? {
      InternalHolderIsInside(s, s.master.value);
    }
    if s.descriptors.Some? {
      InternalHolderIsInside(s, s.descriptors.value);
    }
  }

  lemma InternalHolderIsInside(s: State, t: Tid)
    requires Inv(s) && (s.master == Some(t) || s.descriptors == Some(t))
    ensures Inside(s, t)
  {
    assert Placed(s, t);
  }

  predicate Distinct<T(==)>(xs: seq<T>) {
    forall j, k :: 0 <= j < k < |xs| ==> xs[j] != xs[k]
  }

  /** Different numbers below n are at most n. */
  lemma {:induction false} AtMost(xs: seq<nat>, n: nat)
    requires Distinct(xs) && forall k :: 0 <= k < |xs| ==> xs[k] < n
    ensures |xs| <= n
    decreases n
  {
    if xs != [] {
      assert 0 <= xs[0] < n;
      if k :| 0 <= k < |xs| && xs[k] == n - 1 {
        var others := xs[..k] + xs[k + 1..];
        assert forall i :: 0 <= i < |others| ==> others[i] == if i < k then xs[i] else xs[i + 1];
        AtMost(others, n - 1);
      } else {
        AtMost(xs, n - 1);
      }
    }
  }

  /** The records that the threads of a chain wait for, but for the last thread. */
  function Wanted(s: State, ts: seq<Tid>): (rs: seq<nat>)
    requires ts != [] && Chain(s, ts)
    ensures |rs| == |ts| - 1 && forall k :: 0 <= k < |rs| ==> rs[k] == PcOf(s, ts[k]).rec < |s.mutex|
  {
    seq(|ts| - 1, k requires 0 <= k < |ts| - 1 => PcOf(s, ts[k]).rec)
  }

  /** Different threads wait for different threads only if for different records. */
  lemma ChainIsShort(s: State, ts: seq<Tid>)
    requires ts != [] && Chain(s, ts) && Distinct(ts)
    ensures |ts| <= |s.mutex| + 1
  {
    var rs := Wanted(s, ts);
    forall j, k | 0 <= j < k < |rs| ensures rs[j] != rs[k] {
      assert s.mutex[rs[j]] == Some(ts[j + 1]) && s.mutex[rs[k]] == Some(ts[k + 1]);
    }
    AtMost(rs, |s.mutex|);
  }

  /** Following a chain of different threads leads to a dead end. */
  lemma {:induction false} FollowChain(s: State, ts: seq<Tid>) returns (dead: seq<Tid>)
    requires Inv(s) && NobodyRuns(s)
    requires ts != [] && Chain(s, ts) && Distinct(ts) && Inside(s, ts[|ts| - 1])
    ensures DeadEnd(s, dead) && dead[0] == ts[0]
    decreases |s.mutex| + 1 - |ts|
  {
    ChainIsShort(s, ts);
    var last := ts[|ts| - 1];
    BlockedThreadWaits(s, last);
    var next := WaitsFor(s, last);
    var longer := ts + [next];
    assert Chain(s, longer);
    assert longer[..|longer| - 1] == ts;
    if next in ts || Outside(PcOf(s, next)) {
      dead := longer;
    } else {
      ChainIsShort(s, longer);
      dead := FollowChain(s, longer);
    }
  }

  /** No thread inside a call can run if and only if each of them is at the start of a chain
      of threads waiting for each other's displays that ends with an owner outside any call,
      or in a cycle. */
  lemma NobodyRunsIff(s: State)
    requires Inv(s)
    ensures NobodyRuns(s) <==> forall t: Tid :: Inside(s, t) ==> IsStuck(s, t)
  {
    if NobodyRuns(s) {
      forall t: Tid | Inside(s, t) ensures IsStuck(s, t) {
        assert Chain(s, [t]);
        var dead := FollowChain(s, [t]);
      }
    } else {
      var t: Tid, call: Call :| Inside(s, t) && Step(s, t, call).Some?;
      forall ts: seq<Tid> | DeadEnd(s, ts) ensures ts[0] != t {
        assert Waits(s, ts[0]);
      }
    }
  }

  /** Where no thread waits for a display while it holds another, nobody inside a call can run
      only if every thread inside a call waits for a display of an owner outside any call: the
      lock calls alone do not deadlock. */
  lemma OneDisplayAtATime(s: State, t: Tid)
    requires Inv(s) && NobodyRuns(s) && Inside(s, t)
    requires forall u: Tid, rec :: Waits(s, u) && 0 <= rec < |s.mutex| ==> s.mutex[rec] != Some(u)
    ensures Waits(s, t) && Outside(PcOf(s, WaitsFor(s, t))) && Owns(s, WaitsFor(s, t), PcOf(s, t).rec)
  {
    BlockedThreadWaits(s, t);
    var u := WaitsFor(s, t);
    if Inside(s, u) {
      BlockedThreadWaits(s, u);
      assert false;
    }
    assert !HoldsUnowned(PcOf(s, u), PcOf(s, t).rec);
  }

  /** In every interleaving. */
  lemma DeadlockIff(ss: seq<State>, moves: seq<Move>, n: nat)
    requires IsHistory(ss, moves) && n < |ss|
    ensures Shape(ss[n])
    ensures NobodyRuns(ss[n]) <==> forall t: Tid :: Inside(ss[n], t) ==> IsStuck(ss[n], t)
  {
    EveryStateHasInv(ss, moves, n);
    NobodyRunsIff(ss[n]);
  }
}

/** What holds in every interleaving of display locking. */
module DisplayLockSafety {
  import opened DisplayLock
  import opened Options

  /** What a step of thread t leaves alone: everything that names another thread. */
  ghost predicate Frame(s: State, s': State, t: Tid)
    requires Shape(s)
  {
    && Shape(s')
    && s.records <= s'.records
    && (forall r :: |s.records| <= r < |s'.records| ==> s'.owner[r].None? && s'.mutex[r].None?)
    && (forall r, u: Tid :: 0 <= r < |s.records| && u != t ==> (s.owner[r] == Some(u) <==> s'.owner[r] == Some(u)))
    && (forall r, u: Tid :: 0 <= r < |s.records| && u != t ==> (s.mutex[r] == Some(u) <==> s'.mutex[r] == Some(u)))
    && (forall r :: 0 <= r < |s.records| && s.mutex[r].Some? && s.mutex[r] != Some(t) ==> s'.owner[r] == s.owner[r])
    && (forall u: Tid :: u != t ==> PcOf(s', u) == PcOf(s, u))
    && (forall u: Tid :: u != t ==> (s.master == Some(u) <==> s'.master == Some(u)))
    && (forall u: Tid :: u != t ==> (s.descriptors == Some(u) <==> s'.descriptors == Some(u)))
    && (s.descriptors.Some? && s.descriptors != Some(t) ==> s'.records == s.records)
  }

  predicate Finding(pc: Pc) { pc.FindEnter? || pc.FindScan? || pc.FindLeave? }

  predicate Locking(pc: Pc) {
    pc.LockEnter? || pc.LockCheck? || pc.LockLeave? || pc.LockWait? || pc.LockPoll? || pc.LockOwn?
  }

  predicate Unlocking(pc: Pc) {
    pc.UnlockEnter? || pc.UnlockCheck? || pc.UnlockClear? || pc.UnlockRelease? || pc.UnlockLeave?
  }

  predicate ReleasingAll(pc: Pc) {
    pc.AllEnter? || pc.AllScan? || pc.AllClear? || pc.AllRelease? || pc.AllLeave?
  }

  predicate Outside(pc: Pc) {
    pc.Idle? || pc.LockReturn? || pc.UnlockReturn? || pc.AllReturn?
  }

  /** What every kind of step keeps about the shared state. */
  ghost predicate Keeps(s: State, s': State, t: Tid)
    requires Shape(s)
  {
    Frame(s, s', t) && OwnersHold(s') && HoldersKnown(s') && PathsDistinct(s')
  }

  /** Mutex `m` may become `m'` by a step of t. */
  predicate TakesOrLeaves(m: Option<Tid>, m': Option<Tid>, t: Tid) {
    m' == m || (m.None? && m' == Some(t)) || (m == Some(t) && m'.None?)
  }

  /** A step that touches no record and leaves no display mutex held without an owner. */
  lemma QuietStep(s: State, t: Tid, master: Option<Tid>, descriptors: Option<Tid>, pc: Pc)
    requires Inv(s) && TakesOrLeaves(s.master, master, t) && TakesOrLeaves(s.descriptors, descriptors, t)
    requires forall r :: !HoldsUnowned(PcOf(s, t), r)
    ensures Keeps(s, At(s.(master := master, descriptors := descriptors), t, pc), t)
  {
  }

  lemma TakeStep(s: State, t: Tid, rec: nat, pc: Pc)
    requires Inv(s) && rec < |s.records| && s.mutex[rec].None?
    requires forall r :: !HoldsUnowned(PcOf(s, t), r)
    requires HoldsUnowned(pc, rec)
    ensures Keeps(s, At(s.(mutex := s.mutex[rec := Some(t)]), t, pc), t)
  {
  }

  lemma OwnStep(s: State, t: Tid, rec: nat, pc: Pc)
    requires Inv(s) && rec < |s.records| && s.mutex[rec] == Some(t) && s.owner[rec].None?
    requires forall r :: HoldsUnowned(PcOf(s, t), r) ==> r == rec
    ensures Keeps(s, At(WriteOwner(s, rec, Some(t)), t, pc), t)
  {
  }

  lemma DisownStep(s: State, t: Tid, rec: nat, pc: Pc)
    requires Inv(s) && Owns(s, t, rec)
    requires forall r :: !HoldsUnowned(PcOf(s, t), r)
    requires HoldsUnowned(pc, rec)
    ensures Keeps(s, At(WriteOwner(s, rec, None), t, pc), t)
  {
  }

  lemma FreeStep(s: State, t: Tid, rec: nat, pc: Pc)
    requires Inv(s) && rec < |s.records| && s.mutex[rec] == Some(t) && s.owner[rec].None?
    requires forall r :: HoldsUnowned(PcOf(s, t), r) ==> r == rec
    ensures Keeps(s, At(FreeMutex(s, rec), t, pc), t)
  {
  }

  lemma AppendStep(s: State, t: Tid, path: Path, pc: Pc)
    requires Inv(s) && s.descriptors == Some(t)
    requires forall j :: 0 <= j < |s.records| ==> s.records[j] != path
    requires forall r :: !HoldsUnowned(PcOf(s, t), r)
    ensures Keeps(s, At(s.(records := s.records + [path], owner := s.owner + [None], mutex := s.mutex + [None]), t, pc),
                  t)
  {
  }

  /** Every step is of one of these kinds. */
  lemma StepKeeps(s: State, t: Tid, call: Call)
    requires Inv(s) && Step(s, t, call).Some?
    ensures Keeps(s, Step(s, t, call).value, t)
  {
    assert Knows(s, t, PcOf(s, t)) && Placed(s, t);
    if Locking(PcOf(s, t)) {
      LockKeeps(s, t, call);
    } else if Unlocking(PcOf(s, t)) || ReleasingAll(PcOf(s, t)) {
      ReleaseKeeps(s, t, call);
    } else {
      var s' := Step(s, t, call).value;
      if PcOf(s, t).FindScan? && PcOf(s, t).ndx == |s.records| {
        AppendStep(s, t, PcOf(s, t).path, PcOf(s', t));
      } else {
        QuietStep(s, t, s'.master, s'.descriptors, PcOf(s', t));
      }
    }
  }

  lemma LockKeeps(s: State, t: Tid, call: Call)
    requires Inv(s) && Locking(PcOf(s, t)) && Step(s, t, call).Some?
    ensures Keeps(s, Step(s, t, call).value, t)
  {
    assert Knows(s, t, PcOf(s, t)) && Placed(s, t);
    var s' := Step(s, t, call).value;
    var pc' := PcOf(s', t);
    match PcOf(s, t)
    case LockOwn(rec, _) => OwnStep(s, t, rec, pc');
    case LockWait(rec, _) => TakeStep(s, t, rec, pc');
    case LockPoll(rec, _, _) =>
      if s.mutex[rec].None? {
        TakeStep(s, t, rec, pc');
      } else {
        QuietStep(s, t, s.master, s.descriptors, pc');
      }
    case _ => QuietStep(s, t, s'.master, s'.descriptors, pc');
  }

  lemma ReleaseKeeps(s: State, t: Tid, call: Call)
    requires Inv(s) && (Unlocking(PcOf(s, t)) || ReleasingAll(PcOf(s, t))) && Step(s, t, call).Some?
    ensures Keeps(s, Step(s, t, call).value, t)
  {
    assert Knows(s, t, PcOf(s, t)) && Placed(s, t);
    var s' := Step(s, t, call).value;
    var pc' := PcOf(s', t);
    match PcOf(s, t)
    case UnlockClear(rec, _) => DisownStep(s, t, rec, pc');
    case UnlockRelease(rec, _) => FreeStep(s, t, rec, pc');
    case AllClear(ndx, _, _) => DisownStep(s, t, ndx, pc');
    case AllRelease(ndx, _, _) => FreeStep(s, t, ndx, pc');
    case _ => QuietStep(s, t, s'.master, s'.descriptors, pc');
  }

  /** Where t is after its step, what it knows holds. */
  ghost predicate Arrives(s: State, t: Tid) {
    Shape(s) && Knows(s, t, PcOf(s, t)) && Placed(s, t)
  }

  lemma BeginArrives(s: State, t: Tid, call: Call)
    requires Inv(s) && Outside(PcOf(s, t)) && Begin(s, t, call).Some?
    ensures Arrives(Begin(s, t, call).value, t)
  {
    assert Knows(s, t, PcOf(s, t)) && Placed(s, t);
  }

  lemma FindArrives(s: State, t: Tid, call: Call)
    requires Inv(s) && Finding(PcOf(s, t)) && Step(s, t, call).Some?
    ensures Arrives(Step(s, t, call).value, t)
  {
    assert Knows(s, t, PcOf(s, t)) && Placed(s, t);
  }

  lemma LockArrives(s: State, t: Tid, call: Call)
    requires Inv(s) && Locking(PcOf(s, t)) && Step(s, t, call).Some?
    ensures Arrives(Step(s, t, call).value, t)
  {
    hide PathsDistinct, HoldersKnown;
    assert Knows(s, t, PcOf(s, t)) && Placed(s, t);
  }

  lemma UnlockArrives(s: State, t: Tid, call: Call)
    requires Inv(s) && Unlocking(PcOf(s, t)) && Step(s, t, call).Some?
    ensures Arrives(Step(s, t, call).value, t)
  {
    hide PathsDistinct, HoldersKnown;
    assert Knows(s, t, PcOf(s, t)) && Placed(s, t);
  }

  lemma ScanArrives(s: State, t: Tid, call: Call)
    requires Inv(s) && (PcOf(s, t).AllEnter? || PcOf(s, t).AllScan?) && Step(s, t, call).Some?
    ensures Arrives(Step(s, t, call).value, t)
  {
    hide PathsDistinct, HoldersKnown, OwnersHold;
    assert Knows(s, t, PcOf(s, t)) && Placed(s, t);
    var pc := PcOf(s, t);
    if pc.AllEnter? {
      assert Below(OwnedBy(s, t), 0) == {};
    } else {
      CountNext(pc.mine, pc.ndx);
      if pc.ndx == |s.records| {
        assert Below(pc.mine, pc.ndx) == pc.mine;
      }
    }
  }

  lemma ReleaseAllArrives(s: State, t: Tid, call: Call)
    requires Inv(s) && Step(s, t, call).Some?
    requires PcOf(s, t).AllClear? || PcOf(s, t).AllRelease? || PcOf(s, t).AllLeave?
    ensures Arrives(Step(s, t, call).value, t)
  {
    hide PathsDistinct, HoldersKnown, Below;
    assert Knows(s, t, PcOf(s, t)) && Placed(s, t);
  }

  lemma CountNext(mine: set<nat>, ndx: nat)
    ensures |Below(mine, ndx + 1)| == |Below(mine, ndx)| + if ndx in mine then 1 else 0
  {
    if ndx in mine {
      assert Below(mine, ndx + 1) == Below(mine, ndx) + {ndx};
    } else {
      assert Below(mine, ndx + 1) == Below(mine, ndx);
    }
  }

  /** What another thread knows stays true. */
  lemma OthersKnow(s: State, s': State, t: Tid, u: Tid)
    requires Inv(s) && Frame(s, s', t) && u != t
    ensures Knows(s', u, PcOf(s', u)) && Placed(s', u)
  {
    assert Knows(s, u, PcOf(s, u)) && Placed(s, u);
  }

  lemma StepArrives(s: State, t: Tid, call: Call)
    requires Inv(s) && Step(s, t, call).Some?
    ensures Arrives(Step(s, t, call).value, t)
  {
    var pc := PcOf(s, t);
    if Finding(pc) {
      FindArrives(s, t, call);
    } else if Locking(pc) {
      LockArrives(s, t, call);
    } else if Unlocking(pc) {
      UnlockArrives(s, t, call);
    } else if pc.AllEnter? || pc.AllScan? {
      ScanArrives(s, t, call);
    } else if ReleasingAll(pc) {
      ReleaseAllArrives(s, t, call);
    } else {
      BeginArrives(s, t, call);
    }
  }

  /** Every step of every thread keeps the invariant. */
  lemma StepKeepsInv(s: State, t: Tid, call: Call)
    requires Inv(s) && Step(s, t, call).Some?
    ensures Frame(s, Step(s, t, call).value, t) && Inv(Step(s, t, call).value)
  {
    var s' := Step(s, t, call).value;
    StepKeeps(s, t, call);
    StepArrives(s, t, call);
    forall u: Tid ensures Knows(s', u, PcOf(s', u)) && Placed(s', u) {
      if u != t {
        OthersKnow(s, s', t, u);
      }
    }
  }

  // Histories

  datatype Move = Move(thread: Tid, call: Call)

  /** `ss` are the states that an interleaving of moves leads through from the start. */
  predicate IsHistory(ss: seq<State>, moves: seq<Move>) {
    && |ss| == |moves| + 1 && ss[0] == START
    && forall k :: 0 <= k < |moves| ==>
         Shape(ss[k]) && Step(ss[k], moves[k].thread, moves[k].call) == Some(ss[k + 1])
  }

  lemma StartHasInv()
    ensures Inv(START)
  {
  }

  lemma {:induction false} EveryStateHasInv(ss: seq<State>, moves: seq<Move>, n: nat)
    requires IsHistory(ss, moves) && n < |ss|
    ensures Inv(ss[n])
  {
    hide Inv, Frame;
    if n > 0 {
      var k := n - 1;
      EveryStateHasInv(ss, moves, k);
      assert Step(ss[k], moves[k].thread, moves[k].call) == Some(ss[k + 1]);
      StepKeepsInv(ss[k], moves[k].thread, moves[k].call);
    } else {
      StartHasInv();
    }
  }

  /** Mutual exclusion: a display is owned only by the holder of its mutex, so by one thread,
      and a thread about to release a display mutex is the one that holds it. */
  lemma OwnersAreHolders(ss: seq<State>, moves: seq<Move>, n: nat, rec: nat, t: Tid)
    requires IsHistory(ss, moves) && n < |ss| && rec < |ss[n].records|
    ensures Shape(ss[n])
    ensures ss[n].owner[rec] == Some(t) ==> ss[n].mutex[rec] == Some(t)
    ensures PcOf(ss[n], t).UnlockRelease? && PcOf(ss[n], t).rec == rec ==> ss[n].mutex[rec] == Some(t)
    ensures PcOf(ss[n], t).AllRelease? && PcOf(ss[n], t).ndx == rec ==> ss[n].mutex[rec] == Some(t)
  {
    EveryStateHasInv(ss, moves, n);
    assert Knows(ss[n], t, PcOf(ss[n], t));
  }

  /** A thread never waits for a display mutex that it holds itself, nor while it holds the
      master or the descriptor mutex. */
  lemma NoSelfDeadlock(ss: seq<State>, moves: seq<Move>, n: nat, t: Tid)
    requires IsHistory(ss, moves) && n < |ss|
    requires PcOf(ss[n], t).LockWait? || PcOf(ss[n], t).LockPoll?
    ensures var rec := PcOf(ss[n], t).rec;
            && Shape(ss[n]) && rec < |ss[n].records|
            && ss[n].mutex[rec] != Some(t) && ss[n].owner[rec] != Some(t)
            && ss[n].master != Some(t) && ss[n].descriptors != Some(t)
  {
    EveryStateHasInv(ss, moves, n);
    assert Knows(ss[n], t, PcOf(ss[n], t)) && Placed(ss[n], t);
  }

  /** What calls return.  A lock call returns "already open" exactly when the caller owned
      the display when it called, and after any result but "locked" the caller owns it.  An
      unlock call succeeds exactly when the caller owned it, and the caller does not own it
      afterwards.  A bulk release counts what the caller owned and leaves it nothing. */
  lemma CallsReturn(ss: seq<State>, moves: seq<Move>, n: nat, t: Tid)
    requires IsHistory(ss, moves) && n < |ss|
    ensures match PcOf(ss[n], t)
            case LockReturn(rec, held, result) =>
              (result == AlreadyOpen <==> held) && (result != Locked <==> Owns(ss[n], t, rec))
            case UnlockReturn(rec, held, ok) => ok == held && !Owns(ss[n], t, rec)
            case AllReturn(ct, mine) => ct == |mine| && OwnsNothing(ss[n], t)
            case _ => true
  {
    EveryStateHasInv(ss, moves, n);
    assert Knows(ss[n], t, PcOf(ss[n], t));
  }

  /** No io path has two lock records, and a record once made stays where it is. */
  lemma RecordsAreStable(ss: seq<State>, moves: seq<Move>, m: nat, n: nat)
    requires IsHistory(ss, moves) && m <= n < |ss|
    ensures PathsDistinct(ss[n]) && ss[m].records <= ss[n].records
  {
    EveryStateHasInv(ss, moves, n);
    RecordsGrow(ss, moves, m, n);
  }

  lemma {:induction false} RecordsGrow(ss: seq<State>, moves: seq<Move>, m: nat, n: nat)
    requires IsHistory(ss, moves) && m <= n < |ss|
    ensures ss[m].records <= ss[n].records
    decreases n
  {
    hide Inv, Step;
    if m < n {
      var k := n - 1;
      RecordsGrow(ss, moves, m, k);
      EveryStateHasInv(ss, moves, k);
      assert Step(ss[k], moves[k].thread, moves[k].call) == Some(ss[k + 1]);
      StepExtends(ss[k], moves[k].thread, moves[k].call);
      PrefixTransitive(ss[m].records, ss[k].records, ss[n].records);
    }
  }

  lemma PrefixTransitive(a: seq<Path>, b: seq<Path>, c: seq<Path>)
    requires a <= b && b <= c
    ensures a <= c
  {
  }

  lemma StepExtends(s: State, t: Tid, call: Call)
    requires Inv(s) && Step(s, t, call).Some?
    ensures s.records <= Step(s, t, call).value.records
  {
    StepKeepsInv(s, t, call);
  }

  /** The owner field of a record names t after a step only if it did before or t took the
      step, and stops naming t only by a step of t. */
  lemma OnlyOwnThreadWrites(s: State, t: Tid, call: Call, u: Tid, rec: nat)
    requires Inv(s) && Step(s, t, call).Some? && u != t
    ensures Owns(Step(s, t, call).value, u, rec) <==> Owns(s, u, rec)
  {
    StepKeepsInv(s, t, call);
  }

  /** A lock call that does not wait is never blocked: each try takes the mutex if it is
      free, and the call gives up exactly when its tenth try fails. */
  lemma PollingGivesUp(s: State, t: Tid, call: Call)
    requires Inv(s) && PcOf(s, t).LockPoll?
    ensures Step(s, t, call).Some?
    ensures var pc, pc' := PcOf(s, t), PcOf(Step(s, t, call).value, t);
            && pc.rec < |s.mutex| && pc.tries < 10
            && (pc'.LockOwn? <==> s.mutex[pc.rec].None?)
            && (pc'.LockReturn? <==> s.mutex[pc.rec].Some? && pc.tries == 9)
            && (pc'.LockPoll? ==> pc'.tries == pc.tries + 1)
  {
    assert Knows(s, t, PcOf(s, t));
  }

  /** The holder of the master or the descriptor mutex can always take its next step. */
  lemma InternalHolderRuns(s: State, t: Tid, call: Call)
    requires Inv(s) && (s.master == Some(t) || s.descriptors == Some(t))
    ensures Step(s, t, call).Some?
  {
    assert Placed(s, t) && Knows(s, t, PcOf(s, t));
  }

  /** Another thread holds the mutex, and can take its next step. */
  predicate HeldByRunner(s: State, t: Tid, mutex: Option<Tid>, call: Call)
    requires Shape(s)
  {
    mutex.Some? && mutex.value != t && Step(s, mutex.value, call).Some?
  }

  /** A thread inside a call is blocked only by another thread: one that holds the master or
      the descriptor mutex and can itself run, or the holder of the display mutex that a
      waiting lock call wants. */
  lemma BlockedBy(s: State, t: Tid, call: Call)
    requires Inv(s) && Step(s, t, call).None? && !Outside(PcOf(s, t))
    ensures match PcOf(s, t)
            case FindEnter(_, _) => HeldByRunner(s, t, s.descriptors, call)
            case AllEnter => HeldByRunner(s, t, s.descriptors, call)
            case LockEnter(_, _, _) => HeldByRunner(s, t, s.master, call)
            case UnlockEnter(_, _) => HeldByRunner(s, t, s.master, call)
            case LockWait(rec, _) => rec < |s.mutex| && s.mutex[rec].Some? && s.mutex[rec] != Some(t)
            case _ => false
  {
    assert Placed(s, t) && Knows(s, t, PcOf(s, t));
    if s.master.Some? {
      InternalHolderRuns(s, s.master.value, call);
    }
    if s.descriptors.Some? {
      InternalHolderRuns(s, s.descriptors.value, call);
    }
  }
}

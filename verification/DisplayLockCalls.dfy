/** What each display lock call works on, from its beginning to its return. */
module DisplayLockCalls {
  import opened DisplayLock
  import opened DisplayLockSafety
  import opened Options

  /** The call that a thread began last, before the n-th state of a history. */
  function LastCall(ss: seq<State>, moves: seq<Move>, n: nat, t: Tid): Option<Call>
    requires n < |ss| == |moves| + 1
  {
    if n == 0 then None
    else if moves[n - 1].thread == t && Outside(PcOf(ss[n - 1], t)) then Some(moves[n - 1].call)
    else LastCall(ss, moves, n - 1, t)
  }

  /** The call asks for a path, for a purpose. */
  predicate Asks(call: Call, path: Path, purpose: Purpose) {
    match purpose
    case ToLock(wait) => call == LockPath(path, wait)
    case ToUnlock => call == UnlockPath(path)
  }

  predicate Locks(call: Call, records: seq<Path>, rec: nat, wait: bool) {
    rec < |records| && (call == LockPath(records[rec], wait) || call == LockRecord(rec, wait))
  }

  predicate Unlocks(call: Call, records: seq<Path>, rec: nat) {
    rec < |records| && (call == UnlockPath(records[rec]) || call == UnlockRecord(rec))
  }

  /** Where a thread is serves the call that it began. */
  predicate Serves(pc: Pc, call: Call, records: seq<Path>) {
    match pc
    case Idle => false
    case FindEnter(path, purpose) => Asks(call, path, purpose)
    case FindScan(path, _, purpose) => Asks(call, path, purpose)
    case FindLeave(rec, purpose) => rec < |records| && Asks(call, records[rec], purpose)
    case LockEnter(rec, wait, _) => Locks(call, records, rec, wait)
    case LockCheck(rec, wait, _) => Locks(call, records, rec, wait)
    case LockLeave(rec, wait, _, _) => Locks(call, records, rec, wait)
    case LockWait(rec, _) => Locks(call, records, rec, true)
    case LockPoll(rec, _, _) => Locks(call, records, rec, false)
    case LockOwn(rec, _) => Locks(call, records, rec, true) || Locks(call, records, rec, false)
    case LockReturn(rec, _, _) => Locks(call, records, rec, true) || Locks(call, records, rec, false)
    case UnlockEnter(rec, _) => Unlocks(call, records, rec)
    case UnlockCheck(rec, _) => Unlocks(call, records, rec)
    case UnlockClear(rec, _) => Unlocks(call, records, rec)
    case UnlockRelease(rec, _) => Unlocks(call, records, rec)
    case UnlockLeave(rec, _, _) => Unlocks(call, records, rec)
    case UnlockReturn(rec, _, _) => Unlocks(call, records, rec)
    case _ => call == UnlockAll
  }

  lemma BeginServes(s: State, t: Tid, call: Call)
    requires Shape(s) && Outside(PcOf(s, t)) && Step(s, t, call).Some?
    ensures var s' := Step(s, t, call).value; Serves(PcOf(s', t), call, s'.records)
  {
  }

  lemma FindStepServes(s: State, t: Tid, asked: Call, call: Call)
    requires Shape(s) && Finding(PcOf(s, t)) && Step(s, t, call).Some?
    requires Serves(PcOf(s, t), asked, s.records)
    ensures var s' := Step(s, t, call).value; Serves(PcOf(s', t), asked, s'.records)
  {
  }

  lemma LaterStepServes(s: State, t: Tid, asked: Call, call: Call)
    requires Shape(s) && !Outside(PcOf(s, t)) && !Finding(PcOf(s, t)) && Step(s, t, call).Some?
    requires Serves(PcOf(s, t), asked, s.records)
    ensures var s' := Step(s, t, call).value; Serves(PcOf(s', t), asked, s'.records)
  {
  }

  lemma OwnStepServes(s: State, t: Tid, asked: Call, call: Call)
    requires Shape(s) && !Outside(PcOf(s, t)) && Step(s, t, call).Some?
    requires Serves(PcOf(s, t), asked, s.records)
    ensures var s' := Step(s, t, call).value; Serves(PcOf(s', t), asked, s'.records)
  {
    hide Step, Serves;
    if Finding(PcOf(s, t)) {
      FindStepServes(s, t, asked, call);
    } else {
      LaterStepServes(s, t, asked, call);
    }
  }

  lemma ServesStill(pc: Pc, call: Call, records: seq<Path>, longer: seq<Path>)
    requires Serves(pc, call, records) && records <= longer
    ensures Serves(pc, call, longer)
  {
  }

  /** A thread that is in a call, or has returned from one, is where the call it began last
      has led it; one that began none is idle. */
  lemma {:induction false} EveryCallServes(ss: seq<State>, moves: seq<Move>, n: nat, t: Tid)
    requires IsHistory(ss, moves) && n < |ss|
    ensures match LastCall(ss, moves, n, t)
            case Some(call) => Serves(PcOf(ss[n], t), call, ss[n].records)
            case None => PcOf(ss[n], t).Idle?
  {
    hide Serves, Inv, Step, Outside;
    if n == 0 {
      assert PcOf(START, t) == Idle;
    } else {
      var k := n - 1;
      var move := moves[k];
      EveryCallServes(ss, moves, k, t);
      EveryStateHasInv(ss, moves, k);
      assert Step(ss[k], move.thread, move.call) == Some(ss[k + 1]);
      StepExtends(ss[k], move.thread, move.call);
      StepKeepsInv(ss[k], move.thread, move.call);
      if move.thread == t {
        IdleIsOutside(ss[k], t);
        if Outside(PcOf(ss[k], t)) {
          BeginServes(ss[k], t, move.call);
        } else {
          OwnStepServes(ss[k], t, LastCall(ss, moves, k, t).value, move.call);
        }
      } else if LastCall(ss, moves, k, t).Some? {
        ServesStill(PcOf(ss[k], t), LastCall(ss, moves, k, t).value, ss[k].records, ss[n].records);
      }
    }
  }

  lemma IdleIsOutside(s: State, t: Tid)
    ensures PcOf(s, t).Idle? ==> Outside(PcOf(s, t))
  {
  }

  /** The record that a thread works on, once it has one. */
  function RecordOf(pc: Pc): Option<nat> {
    match pc
    case FindLeave(rec, _) => Some(rec)
    case LockEnter(rec, _, _) => Some(rec)
    case LockCheck(rec, _, _) => Some(rec)
    case LockLeave(rec, _, _, _) => Some(rec)
    case LockWait(rec, _) => Some(rec)
    case LockPoll(rec, _, _) => Some(rec)
    case LockOwn(rec, _) => Some(rec)
    case LockReturn(rec, _, _) => Some(rec)
    case UnlockEnter(rec, _) => Some(rec)
    case UnlockCheck(rec, _) => Some(rec)
    case UnlockClear(rec, _) => Some(rec)
    case UnlockRelease(rec, _) => Some(rec)
    case UnlockLeave(rec, _, _) => Some(rec)
    case UnlockReturn(rec, _, _) => Some(rec)
    case _ => None
  }

  /** A call by path works on the record of that path, and on nothing else, from the moment it
      has found one to its return.  A lock call stays a lock call and returns as one; it blocks
      on the display only if it asked to wait, and polls only if it did not.  An unlock call
      stays an unlock call. */
  lemma CallWorksOnItsPath(ss: seq<State>, moves: seq<Move>, n: nat, t: Tid, path: Path, wait: bool)
    requires IsHistory(ss, moves) && n < |ss|
    ensures var s, pc, call := ss[n], PcOf(ss[n], t), LastCall(ss, moves, n, t);
            && (call == Some(LockPath(path, wait)) || call == Some(UnlockPath(path)) ==>
                  && (Finding(pc) || RecordOf(pc).Some?)
                  && (RecordOf(pc).Some? ==> RecordOf(pc).value < |s.records| && s.records[RecordOf(pc).value] == path))
            && (call == Some(LockPath(path, wait)) ==>
                  && (Finding(pc) || Locking(pc) || pc.LockReturn?)
                  && (pc.LockWait? ==> wait) && (pc.LockPoll? ==> !wait))
            && (call == Some(UnlockPath(path)) ==> Finding(pc) || Unlocking(pc) || pc.UnlockReturn?)
  {
    EveryCallServes(ss, moves, n, t);
  }

  /** The same of calls by record, which do not look for one, and of bulk releases. */
  lemma CallWorksOnItsRecord(ss: seq<State>, moves: seq<Move>, n: nat, t: Tid, rec: nat, wait: bool)
    requires IsHistory(ss, moves) && n < |ss|
    ensures var pc, call := PcOf(ss[n], t), LastCall(ss, moves, n, t);
            && (call == Some(LockRecord(rec, wait)) ==>
                  && (Locking(pc) || pc.LockReturn?) && RecordOf(pc) == Some(rec)
                  && (pc.LockWait? ==> wait) && (pc.LockPoll? ==> !wait))
            && (call == Some(UnlockRecord(rec)) ==> (Unlocking(pc) || pc.UnlockReturn?) && RecordOf(pc) == Some(rec))
            && (call == Some(UnlockAll) ==> ReleasingAll(pc) || pc.AllReturn?)
  {
    EveryCallServes(ss, moves, n, t);
  }

  // Displays

  /** A thread owns a display: the owner field of its record names the thread. */
  predicate OwnsDisplay(s: State, t: Tid, path: Path) {
    exists rec: nat :: rec < |s.records| && s.records[rec] == path && Owns(s, t, rec)
  }

  /** Mutual exclusion of displays: in no state of any interleaving do two threads own the
      display of a path. */
  lemma OneOwner(ss: seq<State>, moves: seq<Move>, n: nat, path: Path, t: Tid, u: Tid)
    requires IsHistory(ss, moves) && n < |ss|
    requires OwnsDisplay(ss[n], t, path) && OwnsDisplay(ss[n], u, path)
    ensures t == u
  {
    EveryStateHasInv(ss, moves, n);
    var s := ss[n];
    var r: nat :| r < |s.records| && s.records[r] == path && Owns(s, t, r);
    var q: nat :| q < |s.records| && s.records[q] == path && Owns(s, u, q);
    assert r == q;
  }

  /** A lock call by path that returned anything but "locked" owns the display of that path, and
      one that returned "locked" does not; after an unlock call by path returned the thread does
      not own it. */
  lemma ReturnsSayOwnership(ss: seq<State>, moves: seq<Move>, n: nat, t: Tid, path: Path, wait: bool)
    requires IsHistory(ss, moves) && n < |ss|
    ensures var pc, call := PcOf(ss[n], t), LastCall(ss, moves, n, t);
            && (call == Some(LockPath(path, wait)) && pc.LockReturn? ==>
                  (OwnsDisplay(ss[n], t, path) <==> pc.result != Locked))
            && (call == Some(UnlockPath(path)) && pc.UnlockReturn? ==> !OwnsDisplay(ss[n], t, path))
  {
    CallWorksOnItsPath(ss, moves, n, t, path, wait);
    CallsReturn(ss, moves, n, t);
    EveryStateHasInv(ss, moves, n);
    var s, pc := ss[n], PcOf(ss[n], t);
    if RecordOf(pc).Some? && RecordOf(pc).value < |s.records| {
      OwnsItsRecord(s, t, RecordOf(pc).value);
    }
  }

  lemma OwnsItsRecord(s: State, t: Tid, rec: nat)
    requires Shape(s) && PathsDistinct(s) && rec < |s.records|
    ensures OwnsDisplay(s, t, s.records[rec]) <==> Owns(s, t, rec)
  {
  }

  /** A display stops being owned only by its owner, at one place of an unlock call for it or of
      a bulk release. */
  lemma OwnershipEnds(ss: seq<State>, moves: seq<Move>, n: nat, t: Tid, path: Path)
    requires IsHistory(ss, moves) && n < |moves|
    requires OwnsDisplay(ss[n], t, path) && !OwnsDisplay(ss[n + 1], t, path)
    ensures moves[n].thread == t && LastCall(ss, moves, n, t).Some?
    ensures var pc, call := PcOf(ss[n], t), LastCall(ss, moves, n, t).value;
            || (pc.AllClear? && call == UnlockAll)
            || (pc.UnlockClear? && (call == UnlockPath(path)
                  || (call == UnlockRecord(pc.rec) && pc.rec < |ss[n].records| && ss[n].records[pc.rec] == path)))
  {
    EveryStateHasInv(ss, moves, n);
    EveryCallServes(ss, moves, n, moves[n].thread);
    var s, s', move := ss[n], ss[n + 1], moves[n];
    assert Step(s, move.thread, move.call) == Some(s');
    StepExtends(s, move.thread, move.call);
    var rec: nat :| rec < |s.records| && s.records[rec] == path && Owns(s, t, rec);
    assert s'.records[rec] == path && !Owns(s', t, rec);
    if move.thread != t {
      OnlyOwnThreadWrites(s, move.thread, move.call, t, rec);
    }
    ClearsOwner(s, t, move.call, rec);
  }

  lemma ClearsOwner(s: State, t: Tid, call: Call, rec: nat)
    requires Inv(s) && Step(s, t, call).Some? && Owns(s, t, rec) && !Owns(Step(s, t, call).value, t, rec)
    ensures var pc := PcOf(s, t);
            (pc.UnlockClear? && pc.rec == rec) || (pc.AllClear? && pc.ndx == rec)
  {
    hide Inv;
    assert Shape(s) by { ShapeOf(s); }
    LockOwnTakes(s, t);
  }

  lemma ShapeOf(s: State)
    requires Inv(s)
    ensures Shape(s)
  {
  }

  lemma LockOwnTakes(s: State, t: Tid)
    requires Inv(s)
    ensures Shape(s) && (PcOf(s, t).LockOwn? ==> PcOf(s, t).rec < |s.owner| && s.owner[PcOf(s, t).rec].None?)
  {
    assert Knows(s, t, PcOf(s, t));
  }
}

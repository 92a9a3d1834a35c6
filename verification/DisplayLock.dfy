/** Display locking by any number of threads, one step at a time.  A step is what a thread
    does between two points where another thread can come in: taking or releasing a mutex,
    or reading or writing the shared owner field of a lock record. */
module DisplayLock {

  import opened Options

  type Tid = nat
  datatype IoMode = I2c | Usb
  datatype Path = Path(mode: IoMode, number: int)

  const OPEN_MAX_WAIT_MILLISEC := 1000
  const OPEN_WAIT_INTERVAL_MILLISEC := 100

  datatype LockResult = Acquired | Locked | AlreadyOpen

  /** What follows finding the lock record of a path. */
  datatype Purpose = ToLock(wait: bool) | ToUnlock

  /** Where a thread is.  `held` remembers whether the thread was the record's owner when it
      called, and `mine` which records it owned; the code does not look at either. */
  datatype Pc =
    | Idle
    // get_display_lock_record_by_dpath()
    | FindEnter(path: Path, purpose: Purpose)
    | FindScan(path: Path, ndx: nat, purpose: Purpose)
    | FindLeave(rec: nat, purpose: Purpose)
    // lock_display()
    | LockEnter(rec: nat, wait: bool, held: bool)
    | LockCheck(rec: nat, wait: bool, held: bool)
    | LockLeave(rec: nat, wait: bool, held: bool, selfThread: bool)
    | LockWait(rec: nat, held: bool)
    | LockPoll(rec: nat, tries: nat, held: bool)
    | LockOwn(rec: nat, held: bool)
    | LockReturn(rec: nat, held: bool, result: LockResult)
    // unlock_display()
    | UnlockEnter(rec: nat, held: bool)
    | UnlockCheck(rec: nat, held: bool)
    | UnlockClear(rec: nat, held: bool)
    | UnlockRelease(rec: nat, held: bool)
    | UnlockLeave(rec: nat, held: bool, ok: bool)
    | UnlockReturn(rec: nat, held: bool, ok: bool)
    // unlock_all_displays_for_current_thread()
    | AllEnter
    | AllScan(ndx: nat, ct: nat, mine: set<nat>)
    | AllClear(ndx: nat, ct: nat, mine: set<nat>)
    | AllRelease(ndx: nat, ct: nat, mine: set<nat>)
    | AllLeave(ct: nat, mine: set<nat>)
    | AllReturn(ct: nat, mine: set<nat>)

  /** `records`, `owner` and `mutex` are the lock records: their paths, owner fields and the
      holders of their mutexes. */
  datatype State = State(
    records: seq<Path>,
    owner: seq<Option<Tid>>,
    mutex: seq<Option<Tid>>,
    master: Option<Tid>,
    descriptors: Option<Tid>,
    pcs: map<Tid, Pc>)

  const START: State := State([], [], [], None, None, map[])

  function PcOf(s: State, t: Tid): Pc {
    if t in s.pcs then s.pcs[t] else Idle
  }

  function At(s: State, t: Tid, pc: Pc): State {
    s.(pcs := s.pcs[t := pc])
  }

  datatype Call =
    | LockPath(path: Path, wait: bool)
    | LockRecord(rec: nat, wait: bool)
    | UnlockPath(path: Path)
    | UnlockRecord(rec: nat)
    | UnlockAll

  predicate Owns(s: State, t: Tid, rec: nat) {
    rec < |s.owner| && s.owner[rec] == Some(t)
  }

  function OwnedBy(s: State, t: Tid): set<nat> {
    set r | 0 <= r < |s.owner| && s.owner[r] == Some(t)
  }

  function EnterLock(s: State, t: Tid, rec: nat, wait: bool): State {
    At(s, t, LockEnter(rec, wait, Owns(s, t, rec)))
  }

  function EnterUnlock(s: State, t: Tid, rec: nat): State {
    At(s, t, UnlockEnter(rec, Owns(s, t, rec)))
  }

  /** A thread that is not in a call begins one; a record must be one it was given. */
  function Begin(s: State, t: Tid, call: Call): Option<State> {
    match call
    case LockPath(path, wait) => Some(At(s, t, FindEnter(path, ToLock(wait))))
    case LockRecord(rec, wait) => if rec < |s.records| then Some(EnterLock(s, t, rec, wait)) else None
    case UnlockPath(path) => Some(At(s, t, FindEnter(path, ToUnlock)))
    case UnlockRecord(rec) => if rec < |s.records| then Some(EnterUnlock(s, t, rec)) else None
    case UnlockAll => Some(At(s, t, AllEnter))
  }

  /** The next step of thread t, None if it is blocked. */
  function Step(s: State, t: Tid, call: Call): Option<State>
    requires Shape(s)
  {
    match PcOf(s, t)
    case Idle => Begin(s, t, call)
    case LockReturn(_, _, _) => Begin(s, t, call)
    case UnlockReturn(_, _, _) => Begin(s, t, call)
    case AllReturn(_, _) => Begin(s, t, call)
    case FindEnter(path, purpose) =>
      if s.descriptors.Some? then None
      else Some(At(s.(descriptors := Some(t)), t, FindScan(path, 0, purpose)))
    case FindScan(path, ndx, purpose) =>
      if ndx < |s.records| then
        Some(At(s, t, if s.records[ndx] == path then FindLeave(ndx, purpose) else FindScan(path, ndx + 1, purpose)))
      else
        Some(At(s.(records := s.records + [path], owner := s.owner + [None], mutex := s.mutex + [None]),
                t, FindLeave(|s.records|, purpose)))
    case FindLeave(rec, purpose) =>
      var s' := s.(descriptors := None);
      Some(if purpose.ToLock? then EnterLock(s', t, rec, purpose.wait) else EnterUnlock(s', t, rec))
    case LockEnter(rec, wait, held) =>
      if s.master.Some? then None else Some(At(s.(master := Some(t)), t, LockCheck(rec, wait, held)))
    case LockCheck(rec, wait, held) => Some(At(s, t, LockLeave(rec, wait, held, Owns(s, t, rec))))
    case LockLeave(rec, wait, held, selfThread) =>
      Some(At(s.(master := None), t,
              if selfThread then LockReturn(rec, held, AlreadyOpen)
              else if wait then LockWait(rec, held)
              else LockPoll(rec, 0, held)))
    case LockWait(rec, held) =>
      if rec < |s.mutex| && s.mutex[rec].None?
      then Some(At(s.(mutex := s.mutex[rec := Some(t)]), t, LockOwn(rec, held)))
      else None
    case LockPoll(rec, tries, held) =>
      if rec < |s.mutex| && s.mutex[rec].None?
      then Some(At(s.(mutex := s.mutex[rec := Some(t)]), t, LockOwn(rec, held)))
      else if (tries + 1) * OPEN_WAIT_INTERVAL_MILLISEC < OPEN_MAX_WAIT_MILLISEC
      then Some(At(s, t, LockPoll(rec, tries + 1, held)))
      else Some(At(s, t, LockReturn(rec, held, Locked)))
    case LockOwn(rec, held) => Some(At(WriteOwner(s, rec, Some(t)), t, LockReturn(rec, held, Acquired)))
    case UnlockEnter(rec, held) =>
      if s.master.Some? then None else Some(At(s.(master := Some(t)), t, UnlockCheck(rec, held)))
    case UnlockCheck(rec, held) =>
      Some(At(s, t, if Owns(s, t, rec) then UnlockClear(rec, held) else UnlockLeave(rec, held, false)))
    case UnlockClear(rec, held) => Some(At(WriteOwner(s, rec, None), t, UnlockRelease(rec, held)))
    case UnlockRelease(rec, held) => Some(At(FreeMutex(s, rec), t, UnlockLeave(rec, held, true)))
    case UnlockLeave(rec, held, ok) => Some(At(s.(master := None), t, UnlockReturn(rec, held, ok)))
    case AllEnter =>
      if s.descriptors.Some? then None
      else Some(At(s.(descriptors := Some(t)), t, AllScan(0, 0, OwnedBy(s, t))))
    case AllScan(ndx, ct, mine) =>
      Some(At(s, t, if ndx >= |s.records| then AllLeave(ct, mine)
                    else if Owns(s, t, ndx) then AllClear(ndx, ct + 1, mine)
                    else AllScan(ndx + 1, ct, mine)))
    case AllClear(ndx, ct, mine) => Some(At(WriteOwner(s, ndx, None), t, AllRelease(ndx, ct, mine)))
    case AllRelease(ndx, ct, mine) => Some(At(FreeMutex(s, ndx), t, AllScan(ndx + 1, ct, mine)))
    case AllLeave(ct, mine) => Some(At(s.(descriptors := None), t, AllReturn(ct, mine)))
  }

  predicate Shape(s: State) {
    |s.owner| == |s.records| && |s.mutex| == |s.records|
  }

  function WriteOwner(s: State, rec: nat, value: Option<Tid>): State {
    if rec < |s.owner| then s.(owner := s.owner[rec := value]) else s
  }

  function FreeMutex(s: State, rec: nat): State {
    if rec < |s.mutex| then s.(mutex := s.mutex[rec := None]) else s
  }

  // The invariant

  /** Between taking a display mutex and writing the owner field, and between clearing the
      field and releasing the mutex. */
  predicate HoldsUnowned(pc: Pc, rec: nat) {
    match pc
    case LockOwn(r, _) => r == rec
    case UnlockRelease(r, _) => r == rec
    case AllRelease(r, _, _) => r == rec
    case _ => false
  }

  predicate InMaster(pc: Pc) {
    pc.LockCheck? || pc.LockLeave? || pc.UnlockCheck? || pc.UnlockClear? || pc.UnlockRelease? || pc.UnlockLeave?
  }

  predicate InDescriptors(pc: Pc) {
    pc.FindScan? || pc.FindLeave? || pc.AllScan? || pc.AllClear? || pc.AllRelease? || pc.AllLeave?
  }

  /** How far a bulk release has come: nothing of t's below `ndx`, above it what t owned. */
  predicate Released(s: State, t: Tid, ndx: nat, mine: set<nat>) {
    && (forall r :: 0 <= r < ndx && r < |s.owner| ==> s.owner[r] != Some(t))
    && (forall r :: ndx <= r < |s.owner| ==> (s.owner[r] == Some(t) <==> r in mine))
    && (forall r :: r in mine ==> r < |s.owner|)
  }

  function Below(mine: set<nat>, ndx: nat): set<nat> {
    set r | r in mine && r < ndx
  }

  /** What a thread knows where it is. */
  predicate Knows(s: State, t: Tid, pc: Pc)
    requires Shape(s)
  {
    match pc
    case FindScan(path, ndx, _) =>
      ndx <= |s.records| && forall j :: 0 <= j < ndx ==> s.records[j] != path
    case FindLeave(rec, _) => rec < |s.records|
    case LockEnter(rec, _, held) => rec < |s.records| && held == Owns(s, t, rec)
    case LockCheck(rec, _, held) => rec < |s.records| && held == Owns(s, t, rec)
    case LockLeave(rec, _, held, selfThread) => rec < |s.records| && held == selfThread == Owns(s, t, rec)
    case LockWait(rec, held) => rec < |s.records| && !held && !Owns(s, t, rec)
    case LockPoll(rec, tries, held) =>
      rec < |s.records| && !held && !Owns(s, t, rec)
      && tries * OPEN_WAIT_INTERVAL_MILLISEC < OPEN_MAX_WAIT_MILLISEC
    case LockOwn(rec, held) => rec < |s.records| && !held && s.mutex[rec] == Some(t) && s.owner[rec].None?
    case LockReturn(rec, held, result) =>
      rec < |s.records| && (held <==> result == AlreadyOpen) && (Owns(s, t, rec) <==> result != Locked)
    case UnlockEnter(rec, held) => rec < |s.records| && held == Owns(s, t, rec)
    case UnlockCheck(rec, held) => rec < |s.records| && held == Owns(s, t, rec)
    case UnlockClear(rec, held) => rec < |s.records| && held && Owns(s, t, rec)
    case UnlockRelease(rec, held) => rec < |s.records| && held && s.mutex[rec] == Some(t) && s.owner[rec].None?
    case UnlockLeave(rec, held, ok) => rec < |s.records| && ok == held && !Owns(s, t, rec)
    case UnlockReturn(rec, held, ok) => rec < |s.records| && ok == held && !Owns(s, t, rec)
    case AllScan(ndx, ct, mine) => ndx <= |s.records| && Released(s, t, ndx, mine) && ct == |Below(mine, ndx)|
    case AllClear(ndx, ct, mine) =>
      ndx < |s.records| && Released(s, t, ndx, mine) && ndx in mine && ct == |Below(mine, ndx + 1)|
    case AllRelease(ndx, ct, mine) =>
      ndx < |s.records| && s.mutex[ndx] == Some(t) && s.owner[ndx].None?
      && Released(s, t, ndx + 1, mine) && ct == |Below(mine, ndx + 1)|
    case AllLeave(ct, mine) => OwnsNothing(s, t) && ct == |mine|
    case AllReturn(ct, mine) => OwnsNothing(s, t) && ct == |mine|
    case _ => true
  }

  predicate OwnsNothing(s: State, t: Tid) {
    forall r :: 0 <= r < |s.owner| ==> s.owner[r] != Some(t)
  }

  /** A non-null owner field names the holder of the mutex. */
  predicate OwnersHold(s: State)
    requires Shape(s)
  {
    forall r :: 0 <= r < |s.owner| && s.owner[r].Some? ==> s.mutex[r] == s.owner[r]
  }

  /** A held mutex is owned, or its holder is between the mutex and the owner field. */
  predicate HoldersKnown(s: State)
    requires Shape(s)
  {
    forall r :: 0 <= r < |s.mutex| && s.mutex[r].Some? ==>
      s.owner[r] == s.mutex[r] || HoldsUnowned(PcOf(s, s.mutex[r].value), r)
  }

  predicate PathsDistinct(s: State) {
    forall i, j :: 0 <= i < j < |s.records| ==> s.records[i] != s.records[j]
  }

  ghost predicate Inv(s: State) {
    && Shape(s)
    && OwnersHold(s)
    && HoldersKnown(s)
    && PathsDistinct(s)
    && (forall t: Tid :: Placed(s, t))
    && (forall t: Tid :: Knows(s, t, PcOf(s, t)))
  }

  /** A thread holds the master or the descriptor mutex exactly where the code says. */
  predicate Placed(s: State, t: Tid) {
    (InMaster(PcOf(s, t)) <==> s.master == Some(t)) && (InDescriptors(PcOf(s, t)) <==> s.descriptors == Some(t))
  }
}

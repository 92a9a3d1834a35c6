/** The table of display references: finding the live one, and locking one. */
module DisplayRefs {

  import opened Options

  /** A display reference as a value. */
  datatype Dref = Dref(dispno: int, removed: bool, isI2c: bool, busno: int, connector: Option<string>, timestamp: nat)

  /** A reference is looked for by bus number or by connector, never by both. */
  datatype Selector = ByBus(busno: nat) | ByConnector(name: string)

  predicate Matches(sel: Selector, d: Dref) {
    match sel
    case ByBus(busno) => d.busno == busno
    case ByConnector(name) => d.connector == Some(name)
  }

  predicate Eligible(sel: Selector, ignoreInvalid: bool, d: Dref) {
    !(ignoreInvalid && (d.dispno <= 0 || d.removed)) && d.isI2c && Matches(sel, d)
  }

  // The first pass

  function CountUpTo(sel: Selector, ign: bool, ds: seq<Dref>, n: nat): nat
    requires n <= |ds|
  {
    if n == 0 then 0 else CountUpTo(sel, ign, ds, n - 1) + if Eligible(sel, ign, ds[n - 1]) then 1 else 0
  }

  /** The position of the first eligible reference with the highest non-zero timestamp. */
  function LatestUpTo(sel: Selector, ign: bool, ds: seq<Dref>, n: nat): (r: Option<nat>)
    requires n <= |ds|
    ensures r.Some? ==> r.value < n && Eligible(sel, ign, ds[r.value]) && ds[r.value].timestamp > 0
  {
    if n == 0 then None
    else
      var before := LatestUpTo(sel, ign, ds, n - 1);
      if Eligible(sel, ign, ds[n - 1]) && ds[n - 1].timestamp > Stamp(ds, before) then Some(n - 1) else before
  }

  function Stamp(ds: seq<Dref>, r: Option<nat>): nat
    requires r.Some? ==> r.value < |ds|
  {
    if r.Some? then ds[r.value].timestamp else 0
  }

  lemma {:induction false} LatestIsHighest(sel: Selector, ign: bool, ds: seq<Dref>, n: nat)
    requires n <= |ds|
    ensures forall i :: 0 <= i < n && Eligible(sel, ign, ds[i]) ==>
              ds[i].timestamp <= Stamp(ds, LatestUpTo(sel, ign, ds, n))
  {
    if n > 0 {
      LatestIsHighest(sel, ign, ds, n - 1);
    }
  }

  // The whole lookup

  function MarkOld(sel: Selector, ign: bool, d: Dref, highest: nat): Dref {
    if Eligible(sel, ign, d) && d.timestamp < highest then d.(removed := true) else d
  }

  function Marked(sel: Selector, ign: bool, ds: seq<Dref>, highest: nat): (r: seq<Dref>)
    ensures |r| == |ds| && forall i :: 0 <= i < |ds| ==> r[i] == MarkOld(sel, ign, ds[i], highest)
  {
    seq(|ds|, i requires 0 <= i < |ds| => MarkOld(sel, ign, ds[i], highest))
  }

  /** More than one match is an assertion failure unless invalid references are ignored, and
      a null dereference if no match has a timestamp. */
  datatype Lookup = Found(at: Option<nat>, after: seq<Dref>) | AssertFailed | NullDereference

  function LookUp(sel: Selector, ign: bool, ds: seq<Dref>): Lookup {
    var at := LatestUpTo(sel, ign, ds, |ds|);
    if CountUpTo(sel, ign, ds, |ds|) <= 1 then Found(at, ds)
    else if !ign then AssertFailed
    else if at.None? then NullDereference
    else Found(at, Marked(sel, ign, ds, Stamp(ds, at)))
  }

  class DisplayRef {
    var dispno: int
    var removed: bool
    var isI2c: bool
    var busno: int
    var connector: Option<string>
    var timestamp: nat

    constructor (d: Dref)
      ensures View() == d
    {
      dispno, removed, isI2c := d.dispno, d.removed, d.isI2c;
      busno, connector, timestamp := d.busno, d.connector, d.timestamp;
    }

    function View(): Dref
      reads this
    {
      Dref(dispno, removed, isI2c, busno, connector, timestamp)
    }
  }

  ghost function Views(drefs: seq<DisplayRef>): (ds: seq<Dref>)
    reads drefs
    ensures |ds| == |drefs| && forall i :: 0 <= i < |drefs| ==> ds[i] == drefs[i].View()
  {
    if drefs == [] then [] else Views(drefs[..|drefs| - 1]) + [drefs[|drefs| - 1].View()]
  }

  predicate Distinct(drefs: seq<DisplayRef>) {
    forall i, j :: 0 <= i < j < |drefs| ==> drefs[i] != drefs[j]
  }

  datatype Answer = Answer(ref: DisplayRef?) | Failed

  /** The first pass: how many match, and the newest of them. */
  method FindLatest(drefs: seq<DisplayRef>, sel: Selector, ign: bool)
    returns (count: nat, latest: DisplayRef?, highest: nat)
    ensures count == CountUpTo(sel, ign, Views(drefs), |drefs|)
    ensures var at := LatestUpTo(sel, ign, Views(drefs), |drefs|);
            highest == Stamp(Views(drefs), at) && latest == if at.Some? then drefs[at.value] else null
  {
    count, latest, highest := 0, null, 0;
    var ndx := 0;
    while ndx < |drefs|
      invariant 0 <= ndx <= |drefs|
      invariant count == CountUpTo(sel, ign, Views(drefs), ndx)
      invariant var at := LatestUpTo(sel, ign, Views(drefs), ndx);
                highest == Stamp(Views(drefs), at) && latest == if at.Some? then drefs[at.value] else null
    {
      var cur := drefs[ndx];
      if Eligible(sel, ign, cur.View()) {
        count := count + 1;
        if cur.timestamp > highest {
          highest := cur.timestamp;
          latest := cur;
        }
      }
      ndx := ndx + 1;
    }
  }

  /** The recovery pass: flags all but the newest match. */
  method MarkOlder(drefs: seq<DisplayRef>, sel: Selector, ign: bool, highest: nat)
    requires Distinct(drefs)
    modifies (set d | d in drefs)`removed
    ensures Views(drefs) == Marked(sel, ign, old(Views(drefs)), highest)
  {
    var ndx := 0;
    while ndx < |drefs|
      invariant 0 <= ndx <= |drefs|
      invariant forall i :: 0 <= i < |drefs| ==>
                  drefs[i].View() == if i < ndx then MarkOld(sel, ign, old(drefs[i].View()), highest)
                                     else old(drefs[i].View())
    {
      var cur := drefs[ndx];
      if Eligible(sel, ign, cur.View()) {
        if cur.timestamp < highest {
          cur.removed := true;
        }
      }
      ndx := ndx + 1;
    }
  }

  /** get_dref_by_busno_or_connector() */
  method GetDref(drefs: seq<DisplayRef>, sel: Selector, ign: bool) returns (answer: Answer)
    requires Distinct(drefs)
    modifies (set d | d in drefs)`removed
    ensures match LookUp(sel, ign, old(Views(drefs)))
            case Found(at, after) =>
              Views(drefs) == after && answer == Answer(if at.Some? then drefs[at.value] else null)
            case _ => answer == Failed && Views(drefs) == old(Views(drefs))
  {
    var count, latest, highest := FindLatest(drefs, sel, ign);
    if count > 1 {
      if !ign || latest == null {
        return Failed;
      }
      MarkOlder(drefs, sel, ign, highest);
    }
    answer := Answer(latest);
  }

  // What a lookup achieves

  /** An eligible reference has a timestamp above t. */
  predicate Beaten(sel: Selector, ds: seq<Dref>, t: nat) {
    exists k :: 0 <= k < |ds| && Eligible(sel, true, ds[k]) && ds[k].timestamp > t
  }

  predicate SameStamp(sel: Selector, d: Dref, e: Dref) {
    Eligible(sel, true, d) && Eligible(sel, true, e) && d.timestamp == e.timestamp
  }

  /** The matches that a lookup can tell apart: one without a timestamp, or two with the same,
      are no harm if another is newer. */
  predicate Recoverable(sel: Selector, ds: seq<Dref>) {
    && (forall i :: 0 <= i < |ds| && Eligible(sel, true, ds[i]) && ds[i].timestamp == 0 ==> Beaten(sel, ds, 0))
    && (forall i, j :: 0 <= i < j < |ds| && SameStamp(sel, ds[i], ds[j]) ==> Beaten(sel, ds, ds[i].timestamp))
  }

  lemma {:induction false} CountOne(sel: Selector, ign: bool, ds: seq<Dref>, n: nat, at: nat)
    requires n <= |ds|
    requires forall i :: 0 <= i < |ds| ==> (Eligible(sel, ign, ds[i]) <==> i == at)
    ensures CountUpTo(sel, ign, ds, n) == (if at < n then 1 else 0)
    ensures at < |ds| && ds[at].timestamp > 0 ==> LatestUpTo(sel, ign, ds, n) == if at < n then Some(at) else None
  {
    if n > 0 {
      CountOne(sel, ign, ds, n - 1, at);
    }
  }

  lemma {:induction false} CountNone(sel: Selector, ign: bool, ds: seq<Dref>, n: nat)
    requires n <= |ds|
    requires forall i :: 0 <= i < n ==> !Eligible(sel, ign, ds[i])
    ensures CountUpTo(sel, ign, ds, n) == 0
  {
    if n > 0 {
      CountNone(sel, ign, ds, n - 1);
    }
  }

  lemma {:induction false} CountSome(sel: Selector, ign: bool, ds: seq<Dref>, n: nat, i: nat)
    requires i < n <= |ds| && Eligible(sel, ign, ds[i])
    ensures CountUpTo(sel, ign, ds, n) >= 1
  {
    if i < n - 1 {
      CountSome(sel, ign, ds, n - 1, i);
    }
  }

  lemma {:induction false} CountTwo(sel: Selector, ign: bool, ds: seq<Dref>, n: nat, i: nat, j: nat)
    requires i < j < n <= |ds| && Eligible(sel, ign, ds[i]) && Eligible(sel, ign, ds[j])
    ensures CountUpTo(sel, ign, ds, n) >= 2
  {
    if j < n - 1 {
      CountTwo(sel, ign, ds, n - 1, i, j);
    } else {
      CountSome(sel, ign, ds, n - 1, i);
    }
  }

  lemma {:induction false} CountFinds(sel: Selector, ign: bool, ds: seq<Dref>, n: nat)
    requires n <= |ds|
    ensures CountUpTo(sel, ign, ds, n) >= 1 ==> exists i :: 0 <= i < n && Eligible(sel, ign, ds[i])
    ensures CountUpTo(sel, ign, ds, n) >= 2 ==>
              exists i, j :: 0 <= i < j < n && Eligible(sel, ign, ds[i]) && Eligible(sel, ign, ds[j])
  {
    if n > 0 {
      CountFinds(sel, ign, ds, n - 1);
    }
  }

  /** Two different references match. */
  predicate HasTwo(sel: Selector, ign: bool, ds: seq<Dref>) {
    exists i, j :: 0 <= i < j < |ds| && Eligible(sel, ign, ds[i]) && Eligible(sel, ign, ds[j])
  }

  lemma CountsTwoIff(sel: Selector, ign: bool, ds: seq<Dref>)
    ensures CountUpTo(sel, ign, ds, |ds|) >= 2 <==> HasTwo(sel, ign, ds)
  {
    CountFinds(sel, ign, ds, |ds|);
    if HasTwo(sel, ign, ds) {
      var i, j :| 0 <= i < j < |ds| && Eligible(sel, ign, ds[i]) && Eligible(sel, ign, ds[j]);
      CountTwo(sel, ign, ds, |ds|, i, j);
    }
  }

  /** How a lookup ends.  Two matches fail an assert unless invalid references are ignored;
      then they lead to a null dereference if no match has a timestamp.  Otherwise a reference
      is returned exactly if some match has a timestamp. */
  lemma LookUpOutcome(sel: Selector, ign: bool, ds: seq<Dref>)
    ensures var r := LookUp(sel, ign, ds);
            var stamped := exists i :: 0 <= i < |ds| && Eligible(sel, ign, ds[i]) && ds[i].timestamp > 0;
            && (r.AssertFailed? <==> !ign && HasTwo(sel, ign, ds))
            && (r.NullDereference? <==> ign && HasTwo(sel, ign, ds) && !stamped)
            && (r.Found? ==> (r.at.Some? <==> stamped))
  {
    CountsTwoIff(sel, ign, ds);
    LatestIsHighest(sel, ign, ds, |ds|);
    var at := LatestUpTo(sel, ign, ds, |ds|);
    assert at.Some? ==> Eligible(sel, ign, ds[at.value]) && ds[at.value].timestamp > 0;
  }

  /** The reference that a lookup finds has the bus number or connector asked for, is an I2C
      display's, not removed, with a display number above 0 and a timestamp; no reference of which
      all that holds has a later one, and if there is such a reference the lookup finds one, or
      fails the assert. */
  lemma LookUpFindsAsked(sel: Selector, ign: bool, ds: seq<Dref>)
    ensures var r := LookUp(sel, ign, ds);
            && (r.Found? && r.at.Some? ==>
                  && r.at.value < |ds| && IsAskedFor(sel, ign, ds[r.at.value]) && ds[r.at.value].timestamp > 0
                  && forall i :: 0 <= i < |ds| && IsAskedFor(sel, ign, ds[i]) ==>
                       ds[i].timestamp <= ds[r.at.value].timestamp)
            && (r.Found? && r.at.None? ==> forall i :: 0 <= i < |ds| && ds[i].timestamp > 0 ==>
                                             !IsAskedFor(sel, ign, ds[i]))
  {
    LatestIsHighest(sel, ign, ds, |ds|);
    LookUpOutcome(sel, ign, ds);
  }

  predicate IsAskedFor(sel: Selector, ignoreInvalid: bool, d: Dref) {
    && d.isI2c && (ignoreInvalid ==> d.dispno > 0 && !d.removed)
    && (sel.ByBus? ==> d.busno == sel.busno)
    && (sel.ByConnector? ==> d.connector.Some? && d.connector.value == sel.name)
  }

  /** Every match but the one at `at` is older than it. */
  predicate IsOnlyNewest(sel: Selector, ds: seq<Dref>, at: nat) {
    && at < |ds| && Eligible(sel, true, ds[at]) && ds[at].timestamp > 0
    && forall i :: 0 <= i < |ds| && i != at && Eligible(sel, true, ds[i]) ==> ds[i].timestamp < ds[at].timestamp
  }

  predicate NoneEligible(sel: Selector, ds: seq<Dref>) {
    forall i :: 0 <= i < |ds| ==> !Eligible(sel, true, ds[i])
  }

  lemma RecoverableIff(sel: Selector, ds: seq<Dref>)
    ensures var at := LatestUpTo(sel, true, ds, |ds|);
            Recoverable(sel, ds) <==> NoneEligible(sel, ds) || (at.Some? && IsOnlyNewest(sel, ds, at.value))
  {
    LatestIsHighest(sel, true, ds, |ds|);
    var at := LatestUpTo(sel, true, ds, |ds|);
    if at.Some? {
      forall i | 0 <= i < |ds| && i != at.value && Eligible(sel, true, ds[i]) && Recoverable(sel, ds)
        ensures ds[i].timestamp < ds[at.value].timestamp
      {
        assert SameStamp(sel, ds[i], ds[at.value]) ==> Beaten(sel, ds, ds[i].timestamp);
      }
      if IsOnlyNewest(sel, ds, at.value) {
        forall i, j | 0 <= i < j < |ds| && SameStamp(sel, ds[i], ds[j])
          ensures Beaten(sel, ds, ds[i].timestamp)
        {
          assert ds[at.value].timestamp > ds[i].timestamp;
        }
      }
    }
  }

  /** The lookup succeeded, and left its answer as the only match, or no match if it gave none. */
  predicate IsUnambiguous(sel: Selector, r: Lookup) {
    r.Found? && forall i :: 0 <= i < |r.after| ==> (Eligible(sel, true, r.after[i]) <==> r.at == Some(i))
  }

  /** What the lookup of recoverable matches finds and changes: the newest match, all others
      flagged removed, and nothing else changed. */
  lemma LookUpFindsNewest(sel: Selector, ds: seq<Dref>)
    requires Recoverable(sel, ds)
    ensures var r := LookUp(sel, true, ds);
            && r.Found? && |r.after| == |ds|
            && (r.at.None? <==> NoneEligible(sel, ds))
            && (r.at.Some? ==> IsOnlyNewest(sel, ds, r.at.value))
            && forall i :: 0 <= i < |ds| ==>
                 r.after[i] == if Eligible(sel, true, ds[i]) && r.at != Some(i) then ds[i].(removed := true) else ds[i]
  {
    RecoverableIff(sel, ds);
    CountsTwoIff(sel, true, ds);
    var at := LatestUpTo(sel, true, ds, |ds|);
    if at.Some? && !HasTwo(sel, true, ds) {
      OnlyMatch(sel, ds, at.value);
    }
  }

  lemma OnlyMatch(sel: Selector, ds: seq<Dref>, at: nat)
    requires at < |ds| && Eligible(sel, true, ds[at])
    ensures HasTwo(sel, true, ds) <==> exists i :: 0 <= i < |ds| && i != at && Eligible(sel, true, ds[i])
  {
    if i :| 0 <= i < |ds| && i != at && Eligible(sel, true, ds[i]) {
      TwoMatches(sel, ds, i, at);
    }
  }

  lemma TwoMatches(sel: Selector, ds: seq<Dref>, i: nat, j: nat)
    requires i < |ds| && j < |ds| && i != j && Eligible(sel, true, ds[i]) && Eligible(sel, true, ds[j])
    ensures HasTwo(sel, true, ds)
  {
    assert if i < j then i < j < |ds| else j < i < |ds|;
  }

  /** A lookup that ignores invalid references leaves its answer as the only match if and only
      if every match without a timestamp, and every two with the same, are beaten by a newer one. */
  lemma LookUpSucceedsIff(sel: Selector, ds: seq<Dref>)
    ensures IsUnambiguous(sel, LookUp(sel, true, ds)) <==> Recoverable(sel, ds)
  {
    RecoverableIff(sel, ds);
    if Recoverable(sel, ds) {
      LookUpFindsNewest(sel, ds);
    } else {
      var at := LatestUpTo(sel, true, ds, |ds|);
      var r := LookUp(sel, true, ds);
      if at.Some? {
        LatestIsHighest(sel, true, ds, |ds|);
        var i :| 0 <= i < |ds| && i != at.value && Eligible(sel, true, ds[i])
                 && ds[i].timestamp == ds[at.value].timestamp;
        assert r.Found? ==> r.after[i] == ds[i];
      } else {
        var i :| 0 <= i < |ds| && Eligible(sel, true, ds[i]);
        assert r.Found? ==> r.after[i] == ds[i];
      }
    }
  }

  /** A second lookup after one that was answered gives the same answer and changes nothing. */
  lemma LookUpTwice(sel: Selector, ds: seq<Dref>)
    ensures var first := LookUp(sel, true, ds);
            first.Found? ==> LookUp(sel, true, first.after) == first
  {
    var first := LookUp(sel, true, ds);
    if first.Found? && CountUpTo(sel, true, ds, |ds|) > 1 {
      MarkedLatest(sel, ds, |ds|);
      LatestIsHighest(sel, true, ds, |ds|);
      assert Marked(sel, true, first.after, Stamp(ds, first.at)) == first.after;
    }
  }

  /** The second lookup has nothing left to recover if and only if the matches were
      recoverable, or one at most. */
  lemma NothingLeftIff(sel: Selector, ds: seq<Dref>)
    ensures var first := LookUp(sel, true, ds);
            first.Found? ==> (!HasTwo(sel, true, first.after) <==> Recoverable(sel, ds) || !HasTwo(sel, true, ds))
  {
    var first := LookUp(sel, true, ds);
    CountsTwoIff(sel, true, ds);
    LookUpSucceedsIff(sel, ds);
    if first.Found? && first.at.Some? {
      OnlyMatch(sel, first.after, first.at.value);
    }
  }

  /** Flagging older matches keeps the first of the newest. */
  lemma {:induction false} MarkedLatest(sel: Selector, ds: seq<Dref>, n: nat)
    requires n <= |ds| && LatestUpTo(sel, true, ds, |ds|).Some?
    ensures var at := LatestUpTo(sel, true, ds, |ds|);
            LatestUpTo(sel, true, Marked(sel, true, ds, Stamp(ds, at)), n) == if at.value < n then at else None
  {
    LatestIsHighest(sel, true, ds, |ds|);
    LatestIsFirst(sel, ds, |ds|);
    if n > 0 {
      MarkedLatest(sel, ds, n - 1);
    }
  }

  lemma {:induction false} LatestIsFirst(sel: Selector, ds: seq<Dref>, n: nat)
    requires n <= |ds|
    ensures var at := LatestUpTo(sel, true, ds, n);
            forall i :: at.Some? && 0 <= i < at.value && Eligible(sel, true, ds[i]) ==> ds[i].timestamp < Stamp(ds, at)
  {
    if n > 0 {
      LatestIsFirst(sel, ds, n - 1);
      LatestIsHighest(sel, true, ds, n - 1);
    }
  }

  /** Two matches with the same timestamp both stay: the recovery leaves the second to be
      found again. */
  lemma EqualStampsAreNotRecovered(d: Dref, e: Dref, sel: Selector)
    requires Eligible(sel, true, d) && Eligible(sel, true, e) && d.timestamp == e.timestamp > 0
    ensures LookUp(sel, true, [d, e]) == Found(Some(0), [d, e]) && !Recoverable(sel, [d, e])
  {
    var ds := [d, e];
    assert CountUpTo(sel, true, ds, 1) == 1;
    assert LatestUpTo(sel, true, ds, 1) == Some(0);
    assert Marked(sel, true, ds, d.timestamp) == ds;
    assert !Beaten(sel, ds, ds[0].timestamp);
  }

  // Locking a reference

  function Pow2(n: nat): (p: nat)
    ensures p >= 1
  {
    if n == 0 then 1 else 2 * Pow2(n - 1)
  }

  /** The milliseconds slept after `n` failed tries. */
  function Slept(interval: nat, n: nat): nat {
    if n == 0 then 0 else Slept(interval, n - 1) + interval * Pow2(n - 1)
  }

  datatype LockStatus = LockOk | LockedOut

  lemma {:induction false} SleptGrows(interval: nat, m: nat, n: nat)
    requires interval > 0 && m <= n
    ensures Slept(interval, m) <= Slept(interval, n)
    decreases n
  {
    if m < n {
      SleptGrows(interval, m, n - 1);
    }
  }

  /** When the limit is reached it is overshot, unless some number of tries sleeps exactly that long. */
  lemma OvershootIff(interval: nat, maxWait: int, tries: nat)
    requires interval > 0 && tries > 0 && Slept(interval, tries - 1) < maxWait <= Slept(interval, tries)
    ensures Slept(interval, tries) > maxWait <==> forall k: nat :: Slept(interval, k) != maxWait
  {
    forall k: nat | k != tries ensures Slept(interval, k) < maxWait || Slept(interval, k) >= Slept(interval, tries) {
      if k < tries {
        SleptGrows(interval, k, tries - 1);
      } else {
        SleptGrows(interval, tries, k);
      }
    }
  }

  /** dref_lock(); `free` tells of each try whether the mutex is free. */
  method LockDref(maxWait: int, interval: nat, free: nat -> bool)
    returns (status: LockStatus, tries: nat, slept: nat)
    requires interval > 0 && maxWait > 0
    ensures tries > 0 && forall k: nat :: k < tries - 1 ==> !free(k)
    ensures status == LockedOut <==> !free(tries - 1)
    ensures slept == Slept(interval, if status == LockedOut then tries else tries - 1)
    ensures status == LockedOut <==> slept >= maxWait
    ensures slept > maxWait <==> status == LockedOut && forall k: nat :: Slept(interval, k) != maxWait
    ensures forall k :: 0 <= k < tries ==> Slept(interval, k) < maxWait
  {
    status, tries, slept := LockedOut, 0, 0;
    var wait := interval;
    var locked := false;
    while !locked && slept < maxWait
      invariant locked ==> tries > 0 && free(tries - 1) && slept < maxWait
      invariant wait == interval * Pow2(if locked then tries - 1 else tries) && wait > 0
      invariant slept == Slept(interval, if locked then tries - 1 else tries)
      invariant forall k: nat :: k < (if locked then tries - 1 else tries) ==> !free(k)
      invariant forall k :: 0 <= k < tries ==> Slept(interval, k) < maxWait
      decreases !locked, maxWait - slept
    {
      locked := free(tries);
      tries := tries + 1;
      if !locked {
        slept := slept + wait;
        wait := wait * 2;
      }
    }
    if locked {
      status := LockOk;
    } else {
      OvershootIff(interval, maxWait, tries);
    }
  }

  /** After n failed tries the sleep is interval * (2^n - 1). */
  lemma {:induction false} SleptIsGeometric(interval: nat, n: nat)
    ensures Slept(interval, n) == interval * (Pow2(n) - 1)
  {
    if n > 0 {
      SleptIsGeometric(interval, n - 1);
      assert interval * (2 * Pow2(n - 1) - 1) == interval * (Pow2(n - 1) - 1) + interval * Pow2(n - 1);
    }
  }

  /** A sleep that was begun below the limit ends below twice the limit plus the interval. */
  lemma SleptIsBounded(interval: nat, maxWait: int, n: nat)
    requires interval > 0 && maxWait > 0 && (n > 0 ==> Slept(interval, n - 1) < maxWait)
    ensures Slept(interval, n) < 2 * maxWait + interval
  {
    if n > 0 {
      SleptIsGeometric(interval, n - 1);
      assert interval * (Pow2(n - 1) - 1) == interval * Pow2(n - 1) - interval;
    }
  }

  /** With the values of the code, a call that cannot lock tries five times and sleeps 1550
      milliseconds, though its limit is 1000. */
  method LockDrefDefault(free: nat -> bool) returns (status: LockStatus, slept: nat)
    ensures status == LockedOut <==> forall k: nat :: k < 5 ==> !free(k)
    ensures if status == LockedOut then slept == 1550 else slept in {0, 50, 150, 350, 750}
  {
    var tries;
    status, tries, slept := LockDref(1000, 50, free);
    assert Slept(50, 1) == 50;
    assert Slept(50, 2) == 150;
    assert Slept(50, 3) == 350;
    assert Slept(50, 4) == 750;
    assert Slept(50, 5) == 1550;
  }

  // Reference ids and the table of published references

  const UINT_RANGE := 0x1_0000_0000

  /** A 32 bit counter after n increments. */
  function Counter(n: nat): nat {
    n % UINT_RANGE
  }

  lemma CounterNext(n: nat)
    ensures (Counter(n) + 1) % UINT_RANGE == Counter(n + 1)
  {
    assert n + 1 == UINT_RANGE * (n / UINT_RANGE) + (Counter(n) + 1);
  }

  /** The ids given to the references created so far, in order. */
  predicate AreIds(ids: seq<nat>) {
    forall k :: 0 <= k < |ids| ==> ids[k] == Counter(k + 1)
  }

  predicate AllDifferent(ids: seq<nat>) {
    forall j, k :: 0 <= j < k < |ids| ==> ids[j] != ids[k]
  }

  /** Two counts show the same exactly when a multiple of 2^32 lies between them. */
  lemma CountersMeetIff(m: nat, n: nat)
    requires m <= n
    ensures Counter(m) == Counter(n) <==> (n - m) % UINT_RANGE == 0
  {
  }

  lemma NextIsNewIff(ids: seq<nat>)
    requires AreIds(ids)
    ensures Counter(|ids| + 1) in ids <==> |ids| >= UINT_RANGE
  {
    hide Counter;
    if |ids| >= UINT_RANGE {
      CountersMeetIff(|ids| + 1 - UINT_RANGE, |ids| + 1);
      assert ids[|ids| - UINT_RANGE] == Counter(|ids| + 1);
    } else {
      forall k | 0 <= k < |ids| ensures ids[k] != Counter(|ids| + 1) {
        CountersMeetIff(k + 1, |ids| + 1);
      }
    }
  }

  /** The ids given by any number of calls are all different if and only if the calls are at most 2^32. */
  lemma IdsDifferIff(ids: seq<nat>)
    requires AreIds(ids)
    ensures AllDifferent(ids) <==> |ids| <= UINT_RANGE
  {
    hide Counter;
    if |ids| > UINT_RANGE {
      CountersMeetIff(1, UINT_RANGE + 1);
      assert ids[0] == ids[UINT_RANGE];
    } else {
      forall j, k | 0 <= j < k < |ids| ensures ids[j] != ids[k] {
        CountersMeetIff(j + 1, k + 1);
      }
    }
  }

  /** The id counter and the table.  A reference stands in the table as the number of
      references created before it. */
  class DrefTable {
    var maxId: nat
    var published: map<nat, nat>
    ghost var ids: seq<nat>

    ghost predicate Valid()
      reads this
    {
      && AreIds(ids) && maxId == Counter(|ids|)
      && forall id :: id in published ==> published[id] < |ids| && ids[published[id]] == id
    }

    constructor ()
      ensures Valid() && ids == [] && published == map[]
    {
      maxId, published, ids := 0, map[], [];
    }

    /** next_dref_id() on a 32 bit counter.  An id is given again exactly after 2^32 calls, and
        the id that stands for no reference is given by every call number that 2^32 divides. */
    method NextId() returns (id: nat)
      requires Valid()
      modifies `maxId, `ids
      ensures Valid() && ids == old(ids) + [id]
      ensures id in old(ids) <==> |old(ids)| >= UINT_RANGE
      ensures id == 0 <==> |ids| % UINT_RANGE == 0
    {
      CounterNext(|ids|);
      NextIsNewIff(ids);
      assert Counter(|ids| + 1) == 0 <==> (|ids| + 1) % UINT_RANGE == 0;
      hide Counter;
      maxId := (maxId + 1) % UINT_RANGE;
      id := maxId;
      ids := ids + [id];
    }

    /** add_published_dref_id_by_dref() */
    method Publish(ref: nat, id: nat)
      requires Valid() && ref < |ids| && ids[ref] == id
      modifies `published
      ensures Valid() && published == old(published)[id := ref]
    {
      published := published[id := ref];
    }

    /** delete_published_dref_id() */
    method Delete(id: nat)
      requires Valid()
      modifies `published
      ensures Valid() && published == old(published) - {id}
    {
      published := published - {id};
    }

    /** dref_from_published_ddca_dref(): what is found has the id, and is the only reference
        that has it while at most 2^32 have been created. */
    method Lookup(id: nat) returns (ref: Option<nat>)
      requires Valid()
      ensures ref.Some? <==> id in published
      ensures ref.Some? ==> ref.value < |ids| && ids[ref.value] == id
      ensures ref.Some? && |ids| <= UINT_RANGE ==>
                forall k :: 0 <= k < |ids| && ids[k] == id ==> k == ref.value
    {
      IdsDifferIff(ids);
      ref := None;
      if id in published {
        ref := Some(published[id]);
      }
    }
  }
}

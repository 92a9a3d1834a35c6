/** The table that cross-references displays by bus number and by EDID. */
module EdidXref {

  import opened Options

  type Byte = bv8
  type Edid = e: seq<Byte> | |e| == 128 witness seq(128, _ => 0)

  class DeviceXref {
    const rawEdid: Edid
    const i2cBusno: nat
    var ambiguous: bool

    constructor (busno: nat, edid: Edid)
      ensures i2cBusno == busno && rawEdid == edid && !ambiguous
    {
      i2cBusno, rawEdid, ambiguous := busno, edid, false;
    }
  }

  // What the entries of a table say

  function Edids(xs: seq<DeviceXref>): (es: seq<Edid>)
    ensures |es| == |xs| && forall i :: 0 <= i < |xs| ==> es[i] == xs[i].rawEdid
  {
    if xs == [] then [] else Edids(xs[..|xs| - 1]) + [xs[|xs| - 1].rawEdid]
  }

  function Occurrences(es: seq<Edid>, e: Edid): nat {
    if es == [] then 0 else Occurrences(es[..|es| - 1], e) + if es[|es| - 1] == e then 1 else 0
  }

  /** Another entry has the same EDID. */
  predicate HasTwin(es: seq<Edid>, i: nat)
    requires i < |es|
  {
    exists j :: 0 <= j < |es| && j != i && es[j] == es[i]
  }

  lemma {:induction false} SomeOccurrence(es: seq<Edid>, i: nat)
    requires i < |es|
    ensures Occurrences(es, es[i]) >= 1
    decreases |es|
  {
    if i < |es| - 1 {
      SomeOccurrence(es[..|es| - 1], i);
    }
  }

  lemma {:induction false} NoOccurrence(es: seq<Edid>, e: Edid)
    requires forall k :: 0 <= k < |es| ==> es[k] != e
    ensures Occurrences(es, e) == 0
    decreases |es|
  {
    if es != [] {
      NoOccurrence(es[..|es| - 1], e);
    }
  }

  /** An EDID that occurs more than once is one that another entry has too. */
  lemma {:induction false} TwinIsSecondOccurrence(es: seq<Edid>, i: nat)
    requires i < |es|
    ensures Occurrences(es, es[i]) > 1 <==> HasTwin(es, i)
    decreases |es|
  {
    var front, last := es[..|es| - 1], es[|es| - 1];
    if i < |front| {
      TwinIsSecondOccurrence(front, i);
      SomeOccurrence(front, i);
      assert HasTwin(es, i) <==> HasTwin(front, i) || last == es[i] by {
        if HasTwin(front, i) {
          var j :| 0 <= j < |front| && j != i && front[j] == front[i];
          assert es[j] == es[i];
        }
        if last == es[i] {
          assert es[|front|] == es[i];
        }
      }
    } else if HasTwin(es, i) {
      var j :| 0 <= j < |es| && j != i && es[j] == es[i];
      SomeOccurrence(front, j);
    } else {
      assert forall k :: 0 <= k < |front| ==> es[k] == front[k];
      NoOccurrence(front, last);
    }
  }

  lemma TwinsStay(es: seq<Edid>, e: Edid, i: nat)
    requires i < |es| && HasTwin(es, i)
    ensures HasTwin(es + [e], i)
  {
    var j :| 0 <= j < |es| && j != i && es[j] == es[i];
    assert (es + [e])[j] == (es + [e])[i];
  }

  lemma TwinsShare(es: seq<Edid>, i: nat, j: nat)
    requires i < |es| && j < |es| && es[i] == es[j] && HasTwin(es, i)
    ensures HasTwin(es, j)
  {
    if i != j {
      assert es[i] == es[j];
    }
  }

  /** An entry has a twin, and one of the two comes before position n. */
  predicate HasTwinBelow(es: seq<Edid>, i: nat, n: nat)
    requires i < |es|
  {
    exists j :: 0 <= j < |es| && j != i && es[j] == es[i] && (i < n || j < n)
  }

  lemma NextTwin(es: seq<Edid>, i: nat, n: nat)
    requires i < |es| && n < |es| && HasTwinBelow(es, i, n + 1)
    ensures HasTwinBelow(es, i, n) || (es[i] == es[n] && HasTwin(es, n))
  {
    var j :| 0 <= j < |es| && j != i && es[j] == es[i] && (i < n + 1 || j < n + 1);
    if i >= n && j >= n {
      assert es[i] == es[j] == es[n];
    }
  }

  class XrefTable {
    var entries: seq<DeviceXref>
    var scanComplete: bool

    /** Bus numbers identify entries, and only an entry with a twin is ever marked. */
    ghost predicate Valid()
      reads this, entries
    {
      && (forall i, j :: 0 <= i < j < |entries| ==> entries[i].i2cBusno != entries[j].i2cBusno)
      && (forall i :: 0 <= i < |entries| && entries[i].ambiguous ==> HasTwin(Edids(entries), i))
    }

    constructor ()
      ensures Valid() && entries == [] && !scanComplete
    {
      entries, scanComplete := [], false;
    }

    /** device_xref_find_by_busno() */
    method FindByBusno(busno: int) returns (r: Option<DeviceXref>)
      ensures r.Some? ==> r.value in entries && r.value.i2cBusno == busno
      ensures r.None? ==> forall i :: 0 <= i < |entries| ==> entries[i].i2cBusno != busno
    {
      r := None;
      var ndx := 0;
      while ndx < |entries|
        invariant 0 <= ndx <= |entries| && r.None?
        invariant forall i :: 0 <= i < ndx ==> entries[i].i2cBusno != busno
      {
        if entries[ndx].i2cBusno == busno {
          r := Some(entries[ndx]);
          break;
        }
        ndx := ndx + 1;
      }
    }

    /** device_xref_find_by_edid(): the first entry with the EDID.  An entry found after the
        scan that is not marked is the only one with its EDID. */
    method FindByEdid(edid: Edid) returns (r: Option<nat>)
      requires scanComplete
      ensures r.None? ==> forall i :: 0 <= i < |entries| ==> entries[i].rawEdid != edid
      ensures r.Some? ==> r.value < |entries| && entries[r.value].rawEdid == edid
      ensures r.Some? ==> forall i :: 0 <= i < r.value ==> entries[i].rawEdid != edid
      ensures r.Some? && Exact() && !entries[r.value].ambiguous ==>
                forall i :: 0 <= i < |entries| && entries[i].rawEdid == edid ==> i == r.value
    {
      r := None;
      var ndx := 0;
      while ndx < |entries|
        invariant 0 <= ndx <= |entries| && r.None?
        invariant forall i :: 0 <= i < ndx ==> entries[i].rawEdid != edid
      {
        if entries[ndx].rawEdid == edid {
          r := Some(ndx);
          break;
        }
        ndx := ndx + 1;
      }
      assert forall i :: 0 <= i < |entries| ==> Edids(entries)[i] == entries[i].rawEdid;
    }

    /** device_xref_new_with_busno(): its asserts end the program on a bad or a known bus number. */
    method NewWithBusno(busno: int, edid: Edid) returns (r: Option<DeviceXref>)
      requires Valid()
      modifies this`entries
      ensures Valid()
      ensures r.None? <==> busno < 0 || exists i :: 0 <= i < |old(entries)| && old(entries)[i].i2cBusno == busno
      ensures r.None? ==> entries == old(entries)
      ensures r.Some? ==> fresh(r.value) && entries == old(entries) + [r.value]
                          && r.value.i2cBusno == busno && r.value.rawEdid == edid && !r.value.ambiguous
    {
      if busno < 0 {
        return None;
      }
      var known := FindByBusno(busno);
      if known.Some? {
        return None;
      }
      var xref := new DeviceXref(busno, edid);
      forall i | 0 <= i < |entries| && entries[i].ambiguous ensures HasTwin(Edids(entries + [xref]), i) {
        TwinsStay(Edids(entries), edid, i);
        assert Edids(entries + [xref]) == Edids(entries) + [edid];
      }
      entries := entries + [xref];
      r := Some(xref);
    }

    /** device_xref_count_by_edid() */
    method CountByEdid(edid: Edid) returns (ct: nat)
      requires scanComplete
      ensures ct == Occurrences(Edids(entries), edid)
    {
      ct := 0;
      var ndx := 0;
      ghost var es := Edids(entries);
      while ndx < |entries|
        invariant 0 <= ndx <= |entries| && ct == Occurrences(es[..ndx], edid)
      {
        assert es[..ndx + 1][..ndx] == es[..ndx];
        if entries[ndx].rawEdid == edid {
          ct := ct + 1;
        }
        ndx := ndx + 1;
      }
      assert es[..|es|] == es;
    }

    /** device_xref_mark_duplicate_edid() */
    method MarkDuplicateEdid(edid: Edid)
      requires scanComplete
      modifies entries
      ensures forall x :: x in entries ==> x.ambiguous == (old(x.ambiguous) || x.rawEdid == edid)
    {
      var ndx := 0;
      while ndx < |entries|
        invariant 0 <= ndx <= |entries|
        invariant forall x :: x in entries ==> x.ambiguous ==> old(x.ambiguous) || x.rawEdid == edid
        invariant forall x :: x in entries && old(x.ambiguous) ==> x.ambiguous
        invariant forall i :: 0 <= i < ndx && entries[i].rawEdid == edid ==> entries[i].ambiguous
      {
        if entries[ndx].rawEdid == edid {
          entries[ndx].ambiguous := true;
        }
        ndx := ndx + 1;
      }
    }

    /** Exactly the entries with a twin are marked. */
    ghost predicate Exact()
      reads this, entries
    {
      forall i :: 0 <= i < |entries| ==> (entries[i].ambiguous <==> HasTwin(Edids(entries), i))
    }

    /** One round of device_xref_mark_duplicate_edids(). */
    method MarkTwinsOf(start: nat)
      requires scanComplete && start < |entries|
      modifies entries
      ensures forall i :: 0 <= i < |entries| ==>
                entries[i].ambiguous == (old(entries[i].ambiguous)
                  || (entries[i].rawEdid == entries[start].rawEdid && HasTwin(Edids(entries), start)))
    {
      var dupct := CountByEdid(entries[start].rawEdid);
      TwinIsSecondOccurrence(Edids(entries), start);
      if dupct > 1 {
        MarkDuplicateEdid(entries[start].rawEdid);
      }
    }

    /** device_xref_mark_duplicate_edids(): the last entry is not looked at itself, but is marked
        through its twin. */
    method MarkDuplicateEdids()
      requires Valid() && scanComplete
      modifies entries
      ensures Valid() && Exact()
    {
      var ct := |entries|;
      ghost var es := Edids(entries);
      var start := 0;
      while start < ct - 1
        invariant 0 <= start && (start <= ct - 1 || ct == 0)
        invariant forall i :: 0 <= i < ct && entries[i].ambiguous ==> HasTwin(es, i)
        invariant forall i :: 0 <= i < ct && HasTwinBelow(es, i, start) ==> entries[i].ambiguous
      {
        MarkTwinsOf(start);
        forall i | 0 <= i < ct && es[i] == es[start] && HasTwin(es, start) ensures HasTwin(es, i) {
          TwinsShare(es, start, i);
        }
        forall i | 0 <= i < ct && HasTwinBelow(es, i, start + 1) ensures HasTwinBelow(es, i, start)
            || (es[i] == es[start] && HasTwin(es, start)) {
          NextTwin(es, i, start);
        }
        start := start + 1;
      }
      forall i | 0 <= i < ct && HasTwin(es, i) ensures HasTwinBelow(es, i, start) {
        var j :| 0 <= j < |es| && j != i && es[j] == es[i];
        assert i < start || j < start;
      }
    }

    /** device_xref_set_i2c_bus_scan_complete() */
    method SetScanComplete()
      requires Valid()
      modifies this`scanComplete, entries
      ensures Valid() && Exact() && scanComplete && entries == old(entries)
    {
      scanComplete := true;
      MarkDuplicateEdids();
    }
  }
}

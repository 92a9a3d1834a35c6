/** The circular buffer of successful invocations kept by the dynamic sleep
    algorithm, and the sequence of values it stands for. */
module CircularBuffer {
  import opened CArith

  datatype Invocation = Invocation(epochSeconds: int, tryct: int, requiredStep: int)

  /** The value cirb_get_logical() returns when there is nothing at an index. */
  const NOT_FOUND := Invocation(-1, -1, 0)

  /** The last `n` elements of `s`, or all of `s` when it is shorter. */
  function LastN<T>(s: seq<T>, n: nat): (r: seq<T>)
    ensures |r| == if |s| < n then |s| else n
  {
    if |s| <= n then s else s[|s| - n..]
  }

  lemma LastNAppend<T>(s: seq<T>, x: T, n: nat)
    requires n > 0
    ensures LastN(LastN(s, n) + [x], n) == LastN(s + [x], n)
  {
  }

  /** What a buffer of `size` slots holds after adding `history` in order to `start`. */
  function AddAll(start: seq<Invocation>, history: seq<Invocation>, size: nat): seq<Invocation>
    decreases |history|
  {
    if history == [] then start
    else LastN(AddAll(start, history[..|history| - 1], size) + [history[|history| - 1]], size)
  }

  /** A buffer of any size retains exactly the most recent `size` of all the
      values ever added, oldest first. */
  lemma {:induction false} RetainsTheLatest(start: seq<Invocation>, history: seq<Invocation>, size: nat)
    requires size > 0 && |start| <= size
    ensures AddAll(start, history, size) == LastN(start + history, size)
    decreases |history|
  {
    if history == [] {
      assert start + history == start;
    } else {
      var n := |history| - 1;
      RetainsTheLatest(start, history[..n], size);
      assert start + history == (start + history[..n]) + [history[n]];
    }
  }

  /** The logical order of a physical array holding `ct` values, next written at `nextpos`. */
  function Unrolled<T>(slots: seq<T>, ct: nat, nextpos: nat): (s: seq<T>)
    requires ct <= |slots| && nextpos <= |slots|
    ensures |s| == ct
  {
    if ct < |slots| then slots[..ct] else slots[nextpos..] + slots[..nextpos]
  }

  /** Overwriting the slot at `nextpos` appends the value and, in a full buffer, drops the oldest. */
  lemma UnrolledAfterWrite<T>(slots: seq<T>, ct: nat, nextpos: nat, value: T)
    requires ct <= |slots| && nextpos < |slots| && (ct < |slots| ==> nextpos == ct)
    ensures var next := if nextpos + 1 == |slots| then 0 else nextpos + 1;
            Unrolled(slots[nextpos := value], if ct < |slots| then ct + 1 else ct, next)
            == LastN(Unrolled(slots, ct, nextpos) + [value], |slots|)
  {
    var n := |slots|;
    var after := slots[nextpos := value];
    if ct == n {
      assert LastN(Unrolled(slots, ct, nextpos) + [value], n) == slots[nextpos + 1..] + slots[..nextpos] + [value];
      assert after[nextpos + 1..] == slots[nextpos + 1..];
      assert after[..nextpos + 1] == slots[..nextpos] + [value];
    } else {
      assert after[..ct + 1] == slots[..ct] + [value];
    }
  }

  class Buffer {
    const values: array<Invocation>
    const size: int
    var ct: int
    var nextpos: int

    ghost predicate Valid()
      reads this
    {
      && values.Length == size && 0 < size
      && 0 <= ct <= size
      && 0 <= nextpos < size
      && (ct < size ==> nextpos == ct)
    }

    /** The retained values, oldest first. */
    ghost function Contents(): (s: seq<Invocation>)
      requires Valid()
      reads this, values
      ensures |s| == ct
    {
      Unrolled(values[..], ct, nextpos)
    }

    constructor (size: int)
      requires size > 0
      ensures Valid() && fresh(values)
      ensures this.size == size && Contents() == []
    {
      values := new Invocation[size](_ => Invocation(0, 0, 0));
      this.size := size;
      ct := 0;
      nextpos := 0;
    }

    method Add(value: Invocation)
      requires Valid()
      modifies this`ct, this`nextpos, values
      ensures Valid()
      ensures Contents() == LastN(old(Contents()) + [value], size)
    {
      UnrolledAfterWrite(values[..], ct, nextpos, value);
      RemWrap(nextpos + 1, size);
      values[nextpos] := value;
      nextpos := Rem(nextpos + 1, size);
      if ct < size {
        ct := ct + 1;
      }
    }

    method LogicalToPhysical(logical: int) returns (physical: int)
      requires Valid()
      ensures physical == Physical(size, ct, nextpos, logical)
      ensures 0 <= logical < ct ==> 0 <= physical < size && values[physical] == Contents()[logical]
      ensures ct <= logical ==> physical == -1
    {
      physical := -1;
      if 0 <= logical < size {
        RemWrap(nextpos + logical, size);
      }
      if logical < ct {
        physical := if ct < size then logical else Rem(nextpos + logical, size);
      }
    }

    method GetLogical(logical: int) returns (result: Invocation)
      requires Valid()
      ensures 0 <= logical < ct ==> result == Contents()[logical]
      ensures ct <= logical ==> result == NOT_FOUND
      ensures logical < 0 && Physical(size, ct, nextpos, logical) < 0 ==> result == NOT_FOUND
    {
      var physical := LogicalToPhysical(logical);
      result := NOT_FOUND;
      if physical >= 0 {
        if logical < 0 {
          NegativeIndex(size, ct, nextpos, logical);
        }
        result := values[physical];
      }
    }

    /** Copies the latest values into `latest`, oldest first; a negative request asks for all. */
    method GetLatest(request: int, latest: array<Invocation>) returns (n: int)
      requires Valid() && latest != values
      requires if request < 0 then ct <= latest.Length else Min(request, ct) <= latest.Length
      modifies latest
      ensures Valid() && unchanged(this) && unchanged(values)
      ensures n == if request < 0 then ct else Min(request, ct)
      ensures latest[..n] == LastN(Contents(), if request < 0 then ct else request)
      ensures latest[n..] == old(latest[n..])
    {
      var want := request;
      if want < 0 {
        want := ct;
      }
      var skip := 0;
      if want <= ct {
        skip := ct - want;
      }
      if want > ct {
        want := ct;
      }
      hide Unrolled, Physical;
      ghost var contents := Contents();
      var i := 0;
      while i < want
        invariant 0 <= i <= want <= latest.Length && Contents() == contents
        invariant forall k :: 0 <= k < i ==> latest[k] == contents[k + skip]
        invariant forall k :: want <= k < latest.Length ==> latest[k] == old(latest[k])
      {
        latest[i] := GetLogical(i + skip);
        i := i + 1;
      }
      n := want;
      assert latest[..n] == contents[skip..];
    }
  }

  /** The index computed by cirb_logical_to_physical_index(). */
  function Physical(size: int, ct: int, nextpos: int, logical: int): int
    requires size > 0
  {
    if logical >= ct then -1
    else if ct < size then logical
    else Rem(nextpos + logical, size)
  }

  /** A negative logical index is documented to give -1, and no caller passes one.  It does
      give -1 only if it is -1 and the buffer is not full, or if counting back from the write
      position ends one short of a multiple of the size.  It gives a negative index exactly
      when the buffer is not full, or when counting back neither stays in the array nor lands
      on a multiple of its size. */
  lemma NegativeIndex(size: int, ct: int, nextpos: int, logical: int)
    requires 0 < size && 0 <= ct <= size && 0 <= nextpos < size
    requires logical < 0
    ensures Physical(size, ct, nextpos, logical) < size
    ensures Physical(size, ct, nextpos, logical) < 0 <==>
            ct < size || (nextpos + logical < 0 && (-(nextpos + logical)) % size != 0)
    ensures Physical(size, ct, nextpos, logical) == -1 <==>
            if ct < size then logical == -1 else nextpos + logical < 0 && (-(nextpos + logical)) % size == 1
  {
    var at := nextpos + logical;
    if ct == size && at >= 0 {
      assert at % size == at;
    }
  }

  /** In a full three-slot buffer, logical index -1 finds the newest value. */
  lemma NegativeIndexFound()
    ensures Physical(3, 3, 1, -1) == 0
  {
  }
}

/**
 * The conflict check of `handleAvailableSlots`: candidate start instants are
 * dropped when they clash with one of the user's busy intervals. Instants are
 * whole minutes on one absolute time line; a candidate occupies
 * `eventLength` minutes from its start.
 */
module Conflicts {
  import opened Sequences

  /** One busy interval of the availability response. */
  datatype BusyTime = BusyTime(start: int, end: int)

  /** dayjs `x.isBetween(a, b)`: both ends exclusive. */
  predicate IsBetween(x: int, a: int, b: int) {
    a < x < b
  }

  /** dayjs `x.isBetween(a, b, null, "[)")`: start inclusive, end exclusive. */
  predicate IsBetweenClosedOpen(x: int, a: int, b: int) {
    a <= x < b
  }

  /** First test: the slot starts during the busy interval. */
  predicate StartsDuring(t: int, busy: BusyTime) {
    IsBetweenClosedOpen(t, busy.start, busy.end)
  }

  /** Second test: the slot's end lies strictly inside the busy interval. */
  predicate EndsDuring(t: int, eventLength: int, busy: BusyTime) {
    IsBetween(t + eventLength, busy.start, busy.end)
  }

  /** Third test: the busy interval starts strictly inside the slot. */
  predicate BusyStartsDuring(t: int, eventLength: int, busy: BusyTime) {
    IsBetween(busy.start, t, t + eventLength)
  }

  /** A slot at `t` clashes with `busy` when any of the three tests holds. */
  predicate Conflicts(t: int, eventLength: int, busy: BusyTime) {
    StartsDuring(t, busy) || EndsDuring(t, eventLength, busy) || BusyStartsDuring(t, eventLength, busy)
  }

  /** No busy interval clashes with a slot at `t`. */
  predicate IsFree(t: int, eventLength: int, busy: seq<BusyTime>) {
    forall j :: 0 <= j < |busy| ==> !Conflicts(t, eventLength, busy[j])
  }

  /** The candidates that are free, in their original order: what the conflict loop leaves behind. */
  function KeepFree(times: seq<int>, busy: seq<BusyTime>, eventLength: int): (r: seq<int>)
    ensures |r| <= |times|
    ensures forall t :: t in r ==> t in times && IsFree(t, eventLength, busy)
  {
    if times == [] then []
    else (if IsFree(times[0], eventLength, busy) then [times[0]] else []) + KeepFree(times[1..], busy, eventLength)
  }

  /** `s` without its element at `i`: `times.splice(i, 1)`. */
  function RemoveAt<T>(s: seq<T>, i: nat): (r: seq<T>)
    requires i < |s|
    ensures |r| == |s| - 1
  {
    s[..i] + s[i + 1..]
  }

  lemma KeepFreeFrom(times: seq<int>, i: nat, busy: seq<BusyTime>, eventLength: int)
    requires i < |times|
    ensures KeepFree(times[i..], busy, eventLength)
         == (if IsFree(times[i], eventLength, busy) then [times[i]] else []) + KeepFree(times[i + 1..], busy, eventLength)
  {
    assert times[i..][1..] == times[i + 1..];
  }

  /** Splicing out the current index leaves the visited part untouched. */
  lemma SpliceCurrent(candidates: seq<int>, i: nat, rest: seq<int>)
    requires i < |candidates|
    ensures (candidates[..i + 1] + rest)[i] == candidates[i]
    ensures RemoveAt(candidates[..i + 1] + rest, i) == candidates[..i] + rest
  {
    var times := candidates[..i + 1] + rest;
    assert times[..i] == candidates[..i];
    assert times[i + 1..] == rest;
  }

  /**
   * The loop of `handleAvailableSlots`: it walks the candidates from the
   * last index down, and for each one `busy.every(...)` tries the busy
   * intervals in order, splicing the candidate out at the first interval
   * that fails one of the three tests and stopping there. Since removal
   * happens only at the current index, the part still to visit is never
   * shifted; the result is exactly the free candidates in their order.
   */
  method FilterConflicts(candidates: seq<int>, busy: seq<BusyTime>, eventLength: int) returns (times: seq<int>)
    ensures times == KeepFree(candidates, busy, eventLength)
  {
    times := candidates;
    var i := |times| - 1;
    while i >= 0
      invariant -1 <= i < |candidates|
      invariant times == candidates[..i + 1] + KeepFree(candidates[i + 1..], busy, eventLength)
    {
      ghost var rest := KeepFree(candidates[i + 1..], busy, eventLength);
      SpliceCurrent(candidates, i, rest);
      ghost var spliced := candidates[..i] + rest;
      var j := 0;
      var removed := false;
      while j < |busy| && !removed
        invariant 0 <= j <= |busy|
        invariant !removed ==> times == candidates[..i + 1] + rest
        invariant !removed ==> forall k :: 0 <= k < j ==> !Conflicts(candidates[i], eventLength, busy[k])
        invariant removed ==> times == spliced && !IsFree(candidates[i], eventLength, busy)
        decreases |busy| - j, if removed then 0 else 1
      {
        var b := busy[j];
        if IsBetweenClosedOpen(times[i], b.start, b.end) {
          times := RemoveAt(times, i);
          removed := true;
        } else if IsBetween(times[i] + eventLength, b.start, b.end) {
          times := RemoveAt(times, i);
          removed := true;
        } else if IsBetween(b.start, times[i], times[i] + eventLength) {
          times := RemoveAt(times, i);
          removed := true;
        } else {
          j := j + 1;
        }
      }
      KeepFreeFrom(candidates, i, busy, eventLength);
      assert candidates[..i + 1] == candidates[..i] + [candidates[i]];
      i := i - 1;
    }
    assert candidates[0..] == candidates;
  }

  /** The filter keeps a candidate exactly when it is free, and never reorders. */
  lemma {:induction false} KeepFreeCharacterization(times: seq<int>, busy: seq<BusyTime>, eventLength: int)
    ensures IsSubsequence(KeepFree(times, busy, eventLength), times)
    ensures forall t :: t in KeepFree(times, busy, eventLength) <==> t in times && IsFree(t, eventLength, busy)
    ensures forall t :: multiset(KeepFree(times, busy, eventLength))[t]
                     == if IsFree(t, eventLength, busy) then multiset(times)[t] else 0
    decreases |times|
  {
    if times != [] {
      var r := KeepFree(times, busy, eventLength);
      var tail := KeepFree(times[1..], busy, eventLength);
      KeepFreeCharacterization(times[1..], busy, eventLength);
      assert times == [times[0]] + times[1..];
      if IsFree(times[0], eventLength, busy) {
        assert r == [times[0]] + tail;
        assert r[1..] == tail;
      } else {
        assert r == tail;
        SubsequenceOfTail(r, times);
      }
    }
  }

  /**
   * For a well-formed busy interval and a positive event length, the three
   * tests together say exactly that the half-open slot `[t, t + eventLength)`
   * and the busy interval `[start, end)` overlap.
   */
  lemma ConflictsIsOverlap(t: int, eventLength: int, busy: BusyTime)
    requires busy.start < busy.end && eventLength > 0
    ensures Conflicts(t, eventLength, busy) <==> busy.start < t + eventLength && t < busy.end
  {
  }

  /**
   * Boundaries: a slot that begins exactly when the busy interval ends, or
   * ends exactly when it begins, is kept; one that begins exactly when it
   * begins is removed.
   */
  lemma Boundaries(eventLength: int, busy: BusyTime)
    requires busy.start < busy.end && eventLength > 0
    ensures KeepFree([busy.end], [busy], eventLength) == [busy.end]
    ensures KeepFree([busy.start - eventLength], [busy], eventLength) == [busy.start - eventLength]
    ensures KeepFree([busy.start], [busy], eventLength) == []
  {
    assert !Conflicts(busy.end, eventLength, busy);
    assert !Conflicts(busy.start - eventLength, eventLength, busy);
    assert Conflicts(busy.start, eventLength, [busy][0]);
  }
}

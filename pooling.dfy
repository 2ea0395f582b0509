/**
 * Pooling of the per-user slot lists when an event has several hosts:
 * COLLECTIVE keeps the times every host offers, ROUND_ROBIN offers every
 * time some host offers and collects, per time, the hosts that offer it.
 * Slots are compared by exact time equality (dayjs `isSame`).
 */
module Pooling {
  import opened Sequences

  /** A bookable slot: its start instant and the usernames that offer it. */
  datatype Slot = Slot(time: int, users: seq<string>)

  /** The event type's scheduling type (Prisma enum `SchedulingType`). */
  datatype SchedulingType = Collective | RoundRobin

  /** The instants a slot list offers. */
  function TimeSet(slots: seq<Slot>): set<int>
  {
    set s | s in slots :: s.time
  }

  /** Every compared slot names at least one user, so `compare.users[0]` is defined. */
  predicate HasUsers(slots: seq<Slot>)
  {
    forall k :: 0 <= k < |slots| ==> |slots[k].users| > 0
  }

  /** No instant occurs twice. */
  predicate DistinctTimes(slots: seq<Slot>)
  {
    forall i, j :: 0 <= i < j < |slots| ==> slots[i].time != slots[j].time
  }

  // ---------------------------------------------------------------- COLLECTIVE

  /** COLLECTIVE pooling step: `slots.filter(slot => compareWith.some(c => c.time.isSame(slot.time)))`. */
  function CollectiveStep(slots: seq<Slot>, compareWith: seq<Slot>): (r: seq<Slot>)
    ensures |r| <= |slots|
    ensures compareWith == [] ==> r == []
  {
    if slots == [] then []
    else (if slots[0].time in TimeSet(compareWith) then [slots[0]] else []) + CollectiveStep(slots[1..], compareWith)
  }

  /** `t` is offered by every list in `lists`. */
  predicate InAll(t: int, lists: seq<seq<Slot>>)
  {
    forall i :: 0 <= i < |lists| ==> t in TimeSet(lists[i])
  }

  /** Reference definition: the slots of `slots` whose time every list of `lists` offers, in order. */
  function OfferedByAll(slots: seq<Slot>, lists: seq<seq<Slot>>): (r: seq<Slot>)
  {
    if slots == [] then []
    else (if InAll(slots[0].time, lists) then [slots[0]] else []) + OfferedByAll(slots[1..], lists)
  }

  /** One more COLLECTIVE step narrows `OfferedByAll` by one more list. */
  lemma {:induction false} CollectiveStepNarrows(slots: seq<Slot>, lists: seq<seq<Slot>>, compareWith: seq<Slot>)
    ensures CollectiveStep(OfferedByAll(slots, lists), compareWith) == OfferedByAll(slots, lists + [compareWith])
    decreases |slots|
  {
    if slots != [] {
      CollectiveStepNarrows(slots[1..], lists, compareWith);
      var t := slots[0].time;
      assert InAll(t, lists + [compareWith]) <==> InAll(t, lists) && t in TimeSet(compareWith) by {
        if InAll(t, lists) && t in TimeSet(compareWith) {
          forall i | 0 <= i < |lists + [compareWith]| ensures t in TimeSet((lists + [compareWith])[i]) {
            if i < |lists| { assert (lists + [compareWith])[i] == lists[i]; }
          }
        }
        if InAll(t, lists + [compareWith]) {
          assert (lists + [compareWith])[|lists|] == compareWith;
          forall i | 0 <= i < |lists| ensures t in TimeSet(lists[i]) {
            assert (lists + [compareWith])[i] == lists[i];
          }
        }
      }
      var head := if InAll(t, lists) then [slots[0]] else [];
      var kept := OfferedByAll(slots[1..], lists);
      if InAll(t, lists) {
        assert OfferedByAll(slots, lists) == [slots[0]] + kept;
        assert OfferedByAll(slots, lists)[1..] == kept;
      } else {
        assert OfferedByAll(slots, lists) == kept;
      }
    }
  }

  /**
   * What `OfferedByAll` keeps: the slots of `slots`, untouched (so their
   * `users` are unchanged) and in their order, whose time every list offers.
   */
  lemma {:induction false} OfferedByAllCharacterization(slots: seq<Slot>, lists: seq<seq<Slot>>)
    ensures IsSubsequence(OfferedByAll(slots, lists), slots)
    ensures forall s :: s in OfferedByAll(slots, lists) <==> s in slots && InAll(s.time, lists)
    decreases |slots|
  {
    if slots != [] {
      var r := OfferedByAll(slots, lists);
      var tail := OfferedByAll(slots[1..], lists);
      OfferedByAllCharacterization(slots[1..], lists);
      assert slots == [slots[0]] + slots[1..];
      if InAll(slots[0].time, lists) {
        assert r == [slots[0]] + tail;
        assert r[1..] == tail;
      } else {
        assert r == tail;
        SubsequenceOfTail(r, slots);
      }
    }
  }

  // --------------------------------------------------------------- ROUND_ROBIN

  /** `slots.findIndex(slot => slot.time.isSame(t))`: the first slot at `t`, or -1. */
  function FirstMatch(slots: seq<Slot>, t: int): (r: int)
    ensures -1 <= r < |slots|
    ensures r == -1 <==> t !in TimeSet(slots)
    ensures r >= 0 ==> slots[r].time == t && forall k :: 0 <= k < r ==> slots[k].time != t
  {
    if slots == [] then -1
    else if slots[0].time == t then 0
    else
      var k := FirstMatch(slots[1..], t);
      assert TimeSet(slots) == {slots[0].time} + TimeSet(slots[1..]) by {
        assert slots == [slots[0]] + slots[1..];
      }
      if k == -1 then -1 else k + 1
  }

  /** `findIndex` as the loop it runs. */
  method FindIndex(slots: seq<Slot>, t: int) returns (r: int)
    ensures r == FirstMatch(slots, t)
  {
    var k := 0;
    while k < |slots|
      invariant 0 <= k <= |slots|
      invariant forall i :: 0 <= i < k ==> slots[i].time != t
    {
      if slots[k].time == t {
        return k;
      }
      k := k + 1;
    }
    return -1;
  }

  /**
   * The body of the ROUND_ROBIN `forEach` for one `compare`: when a slot at
   * the same time exists, the first such slot gets `compare.users[0]`
   * appended to its users; otherwise `compare` is appended to the list.
   */
  function RoundRobinAdd(slots: seq<Slot>, compare: Slot): (r: seq<Slot>)
    requires |compare.users| > 0
    ensures |slots| <= |r| <= |slots| + 1
  {
    var k := FirstMatch(slots, compare.time);
    if k != -1 then slots[k := slots[k].(users := slots[k].users + [compare.users[0]])]
    else slots + [compare]
  }

  /** ROUND_ROBIN pooling step: `RoundRobinAdd` for each `compare` of `compareWith`, in order. */
  function RoundRobinStep(slots: seq<Slot>, compareWith: seq<Slot>): (r: seq<Slot>)
    requires HasUsers(compareWith)
    ensures |slots| <= |r| <= |slots| + |compareWith|
  {
    if compareWith == [] then slots
    else RoundRobinAdd(RoundRobinStep(slots, compareWith[..|compareWith| - 1]), compareWith[|compareWith| - 1])
  }

  /**
   * The ROUND_ROBIN pooling method, mutating its list: `slots` is the
   * accumulated list, extended in place.
   */
  method RoundRobinMerge(slots: seq<Slot>, compareWith: seq<Slot>) returns (merged: seq<Slot>)
    requires HasUsers(compareWith)
    ensures merged == RoundRobinStep(slots, compareWith)
  {
    merged := slots;
    for k := 0 to |compareWith|
      invariant merged == RoundRobinStep(slots, compareWith[..k])
    {
      var compare := compareWith[k];
      var found := FindIndex(merged, compare.time);
      if found != -1 {
        merged := merged[found := merged[found].(users := merged[found].users + [compare.users[0]])];
      } else {
        merged := merged + [compare];
      }
      assert compareWith[..k + 1][..k] == compareWith[..k];
    }
    assert compareWith[..|compareWith|] == compareWith;
  }

  /**
   * One ROUND_ROBIN addition: with `m` the first slot at the compared time,
   * exactly that slot gains `compare.users[0]` and nothing is appended; with
   * no such slot, `compare` itself is appended. Every other slot is
   * unchanged, and the list offers one more time.
   */
  lemma RoundRobinAddShape(slots: seq<Slot>, compare: Slot)
    requires |compare.users| > 0
    ensures var r := RoundRobinAdd(slots, compare); var m := FirstMatch(slots, compare.time);
      |slots| <= |r| <= |slots| + 1
      && (m == -1 <==> |r| == |slots| + 1)
      && (forall k :: 0 <= k < |slots| ==>
            r[k].time == slots[k].time
            && r[k].users == slots[k].users + (if k == m then [compare.users[0]] else []))
      && (forall k :: 0 <= k < |slots| ==> slots[k].users <= r[k].users)
      && (forall k :: |slots| <= k < |r| ==> r[k] == compare)
  {
  }

  /** One ROUND_ROBIN addition offers the compared time besides the old ones, and adds no duplicate time. */
  lemma RoundRobinAddTimes(slots: seq<Slot>, compare: Slot)
    requires |compare.users| > 0
    ensures var r := RoundRobinAdd(slots, compare);
      TimeSet(r) == TimeSet(slots) + {compare.time}
      && (DistinctTimes(slots) ==> DistinctTimes(r))
  {
    var r := RoundRobinAdd(slots, compare);
    var k := FirstMatch(slots, compare.time);
    if k != -1 {
      forall t | t in TimeSet(r) ensures t in TimeSet(slots) {
        var s :| s in r && s.time == t;
        var i :| 0 <= i < |r| && r[i] == s;
        assert slots[i].time == t;
      }
      forall t | t in TimeSet(slots) ensures t in TimeSet(r) {
        var s :| s in slots && s.time == t;
        var i :| 0 <= i < |slots| && slots[i] == s;
        assert r[i].time == t;
      }
    } else {
      assert r == slots + [compare];
      assert TimeSet(r) == TimeSet(slots) + {compare.time} by {
        forall t | t in TimeSet(r) ensures t in TimeSet(slots) + {compare.time} {
          var s :| s in r && s.time == t;
          var i :| 0 <= i < |r| && r[i] == s;
          if i < |slots| { assert slots[i] == s; }
        }
        assert compare in r;
        forall t | t in TimeSet(slots) ensures t in TimeSet(r) {
          var s :| s in slots && s.time == t;
          assert s in r;
        }
      }
      if DistinctTimes(slots) {
        forall i, j | 0 <= i < j < |r| ensures r[i].time != r[j].time {
          if j == |slots| {
            assert slots[i] in slots;
          }
        }
      }
    }
  }

  lemma TimeSetSnoc(slots: seq<Slot>, x: Slot)
    ensures TimeSet(slots + [x]) == TimeSet(slots) + {x.time}
  {
    forall t | t in TimeSet(slots + [x]) ensures t in TimeSet(slots) + {x.time} {
      var s :| s in slots + [x] && s.time == t;
      var i :| 0 <= i < |slots + [x]| && (slots + [x])[i] == s;
      if i < |slots| { assert slots[i] == s; }
    }
    forall t | t in TimeSet(slots) ensures t in TimeSet(slots + [x]) {
      var s :| s in slots && s.time == t;
      assert s in slots + [x];
    }
    assert x in slots + [x];
  }

  /**
   * A whole ROUND_ROBIN step removes no slot: every existing slot stays at
   * its place with its time, and its users are only appended to.
   */
  lemma {:induction false} RoundRobinStepKeepsSlots(slots: seq<Slot>, compareWith: seq<Slot>)
    requires HasUsers(compareWith)
    ensures var r := RoundRobinStep(slots, compareWith);
      |slots| <= |r|
      && forall k :: 0 <= k < |slots| ==> r[k].time == slots[k].time && slots[k].users <= r[k].users
    decreases |compareWith|
  {
    if compareWith != [] {
      var init := compareWith[..|compareWith| - 1];
      RoundRobinStepKeepsSlots(slots, init);
      RoundRobinAddShape(RoundRobinStep(slots, init), compareWith[|compareWith| - 1]);
    }
  }

  /** A whole ROUND_ROBIN step offers exactly the union of the two lists' times. */
  lemma {:induction false} RoundRobinStepTimes(slots: seq<Slot>, compareWith: seq<Slot>)
    requires HasUsers(compareWith)
    ensures TimeSet(RoundRobinStep(slots, compareWith)) == TimeSet(slots) + TimeSet(compareWith)
    decreases |compareWith|
  {
    if compareWith != [] {
      var init := compareWith[..|compareWith| - 1];
      var last := compareWith[|compareWith| - 1];
      RoundRobinStepTimes(slots, init);
      RoundRobinAddTimes(RoundRobinStep(slots, init), last);
      assert compareWith == init + [last];
      TimeSetSnoc(init, last);
    }
  }

  /** A whole ROUND_ROBIN step introduces no duplicate time. */
  lemma {:induction false} RoundRobinStepDistinct(slots: seq<Slot>, compareWith: seq<Slot>)
    requires HasUsers(compareWith) && DistinctTimes(slots)
    ensures DistinctTimes(RoundRobinStep(slots, compareWith))
    decreases |compareWith|
  {
    if compareWith != [] {
      var init := compareWith[..|compareWith| - 1];
      RoundRobinStepDistinct(slots, init);
      RoundRobinAddTimes(RoundRobinStep(slots, init), compareWith[|compareWith| - 1]);
    }
  }

  /** Some slot of `slots` at `t` names `u`. */
  predicate Names(slots: seq<Slot>, t: int, u: string)
  {
    exists s :: s in slots && s.time == t && u in s.users
  }

  /** Some slot of `slots` at `t` has `u` as its first user, the one a ROUND_ROBIN step passes on. */
  predicate Leads(slots: seq<Slot>, t: int, u: string)
  {
    exists s :: s in slots && |s.users| > 0 && s.time == t && s.users[0] == u
  }

  /**
   * Who one ROUND_ROBIN addition names: a user on a slot at `t` was there
   * before or comes from `compare` at `t`; nobody is dropped; and
   * `compare.users[0]` is named at the compared time.
   */
  lemma RoundRobinAddNames(slots: seq<Slot>, compare: Slot)
    requires |compare.users| > 0
    ensures forall t, u :: Names(RoundRobinAdd(slots, compare), t, u) ==> Names(slots, t, u) || Names([compare], t, u)
    ensures forall t, u :: Names(slots, t, u) ==> Names(RoundRobinAdd(slots, compare), t, u)
    ensures Names(RoundRobinAdd(slots, compare), compare.time, compare.users[0])
  {
    var r := RoundRobinAdd(slots, compare);
    var m := FirstMatch(slots, compare.time);
    RoundRobinAddShape(slots, compare);
    forall t, u | Names(r, t, u) ensures Names(slots, t, u) || Names([compare], t, u) {
      var s :| s in r && s.time == t && u in s.users;
      var k :| 0 <= k < |r| && r[k] == s;
      if k < |slots| {
        if u in slots[k].users {
          assert slots[k] in slots;
        } else {
          assert compare in [compare];
        }
      } else {
        assert compare in [compare];
      }
    }
    forall t, u | Names(slots, t, u) ensures Names(r, t, u) {
      var s :| s in slots && s.time == t && u in s.users;
      var k :| 0 <= k < |slots| && slots[k] == s;
      assert r[k] in r && u in r[k].users;
    }
    if m == -1 {
      assert r[|slots|] in r;
    } else {
      assert r[m] in r && r[m].users[|slots[m].users|] == compare.users[0];
    }
  }

  /**
   * Who a whole ROUND_ROBIN step names: only users already named at that
   * time or named by a compared slot at that time, and, at each time, every
   * user named before and the first user of every compared slot.
   */
  lemma {:induction false} RoundRobinStepNames(slots: seq<Slot>, compareWith: seq<Slot>)
    requires HasUsers(compareWith)
    ensures forall t, u :: Names(RoundRobinStep(slots, compareWith), t, u) ==> Names(slots, t, u) || Names(compareWith, t, u)
    ensures forall t, u :: Names(slots, t, u) || Leads(compareWith, t, u) ==> Names(RoundRobinStep(slots, compareWith), t, u)
    decreases |compareWith|
  {
    if compareWith != [] {
      var init := compareWith[..|compareWith| - 1];
      var last := compareWith[|compareWith| - 1];
      var before := RoundRobinStep(slots, init);
      RoundRobinStepNames(slots, init);
      RoundRobinAddNames(before, last);
      assert compareWith == init + [last];
      forall t, u | Names(RoundRobinStep(slots, compareWith), t, u) ensures Names(slots, t, u) || Names(compareWith, t, u) {
        if Names(before, t, u) && !Names(slots, t, u) {
          var s :| s in init && s.time == t && u in s.users;
          assert s in compareWith;
        } else if Names([last], t, u) {
          assert last in compareWith;
        }
      }
      forall t, u | Leads(compareWith, t, u) ensures Names(RoundRobinStep(slots, compareWith), t, u) {
        var s :| s in compareWith && |s.users| > 0 && s.time == t && s.users[0] == u;
        if s in init {
          assert Leads(init, t, u);
        }
      }
    }
  }

  // ------------------------------------------------------------------ the fold

  /** What the fold over the other users' lists needs: at least one list, and users on every compared slot. */
  predicate Poolable(schedulingType: SchedulingType, results: seq<seq<Slot>>)
  {
    |results| >= 1
    && (schedulingType == RoundRobin ==> forall i :: 1 <= i < |results| ==> HasUsers(results[i]))
  }

  function PoolingMethod(schedulingType: SchedulingType, slots: seq<Slot>, compareWith: seq<Slot>): seq<Slot>
    requires schedulingType == RoundRobin ==> HasUsers(compareWith)
  {
    match schedulingType
    case Collective => CollectiveStep(slots, compareWith)
    case RoundRobin => RoundRobinStep(slots, compareWith)
  }

  /** `loadedSlots = poolingMethod(loadedSlots, results[i])` for i = 1 .. n-1, starting from `results[0]`. */
  function Pooled(schedulingType: SchedulingType, results: seq<seq<Slot>>): (r: seq<Slot>)
    requires Poolable(schedulingType, results)
    ensures schedulingType == Collective ==> |r| <= |results[0]|
    ensures schedulingType == RoundRobin ==> |results[0]| <= |r|
  {
    if |results| == 1 then results[0]
    else
      var init := results[..|results| - 1];
      assert Poolable(schedulingType, init);
      PoolingMethod(schedulingType, Pooled(schedulingType, init), results[|results| - 1])
  }

  /** The fold at the end of the fetch: the loop that reassigns `loadedSlots`. */
  method Pool(schedulingType: SchedulingType, results: seq<seq<Slot>>) returns (loadedSlots: seq<Slot>)
    requires Poolable(schedulingType, results)
    ensures loadedSlots == Pooled(schedulingType, results)
  {
    loadedSlots := results[0];
    for i := 1 to |results|
      invariant Poolable(schedulingType, results[..i])
      invariant loadedSlots == Pooled(schedulingType, results[..i])
    {
      match schedulingType {
        case Collective =>
          loadedSlots := CollectiveStep(loadedSlots, results[i]);
        case RoundRobin =>
          loadedSlots := RoundRobinMerge(loadedSlots, results[i]);
      }
      assert results[..i + 1][..i] == results[..i];
    }
    assert results[..|results|] == results;
  }

  /**
   * COLLECTIVE pooling over all users is the first user's list restricted
   * to the times every other user offers: same slots (users still only the
   * first user), same order.
   */
  lemma {:induction false} CollectivePooled(results: seq<seq<Slot>>)
    requires |results| >= 1
    ensures Pooled(Collective, results) == OfferedByAll(results[0], results[1..])
    decreases |results|
  {
    if |results| == 1 {
      OfferedByAllNoLists(results[0], results[1..]);
    } else {
      var init := results[..|results| - 1];
      CollectivePooled(init);
      CollectiveStepNarrows(results[0], init[1..], results[|results| - 1]);
      assert init[1..] + [results[|results| - 1]] == results[1..];
    }
  }

  lemma {:induction false} OfferedByAllNoLists(slots: seq<Slot>, lists: seq<seq<Slot>>)
    requires lists == []
    ensures OfferedByAll(slots, lists) == slots
    decreases |slots|
  {
    if slots != [] {
      OfferedByAllNoLists(slots[1..], lists);
    }
  }

  /** `t` is offered by some list in `lists`. */
  predicate InSome(t: int, lists: seq<seq<Slot>>)
  {
    exists i :: 0 <= i < |lists| && t in TimeSet(lists[i])
  }

  /** ROUND_ROBIN pooling over all users offers exactly the times some user offers. */
  lemma {:induction false} RoundRobinPooledTimes(results: seq<seq<Slot>>)
    requires Poolable(RoundRobin, results)
    ensures forall t :: t in TimeSet(Pooled(RoundRobin, results)) <==> InSome(t, results)
    decreases |results|
  {
    if |results| > 1 {
      var init := results[..|results| - 1];
      var last := results[|results| - 1];
      assert Poolable(RoundRobin, init);
      RoundRobinPooledTimes(init);
      RoundRobinStepTimes(Pooled(RoundRobin, init), last);
      forall t ensures InSome(t, results) <==> InSome(t, init) || t in TimeSet(last) {
        if InSome(t, results) {
          var i :| 0 <= i < |results| && t in TimeSet(results[i]);
          if i < |init| { assert init[i] == results[i]; }
        }
        if InSome(t, init) {
          var i :| 0 <= i < |init| && t in TimeSet(init[i]);
          assert results[i] == init[i];
        }
      }
    } else {
      forall t ensures t in TimeSet(results[0]) <==> InSome(t, results) {
        if t in TimeSet(results[0]) { assert 0 < |results|; }
      }
    }
  }

  /**
   * Under ROUND_ROBIN pooling the first user's slots stay first, at their
   * places and times, and never lose a user; no duplicate time is added to
   * a first list without one.
   */
  lemma {:induction false} RoundRobinPooledKeepsFirst(results: seq<seq<Slot>>)
    requires Poolable(RoundRobin, results)
    ensures var r := Pooled(RoundRobin, results);
      |results[0]| <= |r|
      && (forall k :: 0 <= k < |results[0]| ==> r[k].time == results[0][k].time && results[0][k].users <= r[k].users)
      && (DistinctTimes(results[0]) ==> DistinctTimes(r))
    decreases |results|
  {
    if |results| > 1 {
      var init := results[..|results| - 1];
      var last := results[|results| - 1];
      assert Poolable(RoundRobin, init);
      RoundRobinPooledKeepsFirst(init);
      RoundRobinStepKeepsSlots(Pooled(RoundRobin, init), last);
      if DistinctTimes(results[0]) {
        RoundRobinStepDistinct(Pooled(RoundRobin, init), last);
      }
      forall k | 0 <= k < |results[0]|
        ensures Pooled(RoundRobin, results)[k].time == results[0][k].time
        ensures results[0][k].users <= Pooled(RoundRobin, results)[k].users
      {
        assert init[0] == results[0];
      }
    }
  }

  /** Some list of `lists` names `u` on a slot at `t`. */
  predicate NamedBySome(lists: seq<seq<Slot>>, t: int, u: string)
  {
    exists i :: 0 <= i < |lists| && Names(lists[i], t, u)
  }

  /**
   * Who ROUND_ROBIN pooling over all users names: a user on a pooled slot
   * at `t` is named at `t` by some user's list; conversely every user the
   * first list names at `t`, and the first user of every other list's slot
   * at `t`, is named on a pooled slot at `t`.
   */
  lemma {:induction false} RoundRobinPooledNames(results: seq<seq<Slot>>)
    requires Poolable(RoundRobin, results)
    ensures forall t, u :: Names(Pooled(RoundRobin, results), t, u) ==> NamedBySome(results, t, u)
    ensures forall t, u :: Names(results[0], t, u) ==> Names(Pooled(RoundRobin, results), t, u)
    ensures forall t, u, i :: 1 <= i < |results| && Leads(results[i], t, u) ==> Names(Pooled(RoundRobin, results), t, u)
    decreases |results|
  {
    if |results| > 1 {
      var init := results[..|results| - 1];
      var last := results[|results| - 1];
      assert Poolable(RoundRobin, init);
      RoundRobinPooledNames(init);
      RoundRobinStepNames(Pooled(RoundRobin, init), last);
      assert init[0] == results[0];
      forall t, u | Names(Pooled(RoundRobin, results), t, u) ensures NamedBySome(results, t, u) {
        if NamedBySome(init, t, u) {
          var i :| 0 <= i < |init| && Names(init[i], t, u);
          assert results[i] == init[i];
        } else {
          assert Names(results[|results| - 1], t, u);
        }
      }
      forall t, u, i | 1 <= i < |results| && Leads(results[i], t, u) ensures Names(Pooled(RoundRobin, results), t, u) {
        if i < |init| {
          assert init[i] == results[i];
        }
      }
    } else {
      forall t, u | Names(results[0], t, u) ensures NamedBySome(results, t, u) {
        assert 0 < |results|;
      }
    }
  }

  /** Every time COLLECTIVE pooling offers is offered by ROUND_ROBIN pooling of the same lists. */
  lemma CollectiveWithinRoundRobin(results: seq<seq<Slot>>)
    requires Poolable(RoundRobin, results)
    ensures TimeSet(Pooled(Collective, results)) <= TimeSet(Pooled(RoundRobin, results))
  {
    CollectivePooled(results);
    OfferedByAllCharacterization(results[0], results[1..]);
    RoundRobinPooledTimes(results);
    forall t | t in TimeSet(Pooled(Collective, results)) ensures t in TimeSet(Pooled(RoundRobin, results)) {
      var s :| s in Pooled(Collective, results) && s.time == t;
      assert s in results[0];
      assert InSome(t, results);
    }
  }

  /**
   * Two hosts, one free at 09:00 and 09:30, the other at 09:30 and 10:00
   * (minutes 540, 570, 600): COLLECTIVE keeps 09:30 and names only the
   * first host on it.
   */
  lemma CollectiveTwoHosts()
    ensures Pooled(Collective, [[Slot(540, ["ann"]), Slot(570, ["ann"])], [Slot(570, ["bob"]), Slot(600, ["bob"])]])
         == [Slot(570, ["ann"])]
  {
  }

  /**
   * The same two hosts under ROUND_ROBIN: all three times, with both hosts
   * on 09:30 in processing order.
   */
  lemma RoundRobinTwoHosts()
    ensures Pooled(RoundRobin, [[Slot(540, ["ann"]), Slot(570, ["ann"])], [Slot(570, ["bob"]), Slot(600, ["bob"])]])
         == [Slot(540, ["ann"]), Slot(570, ["ann", "bob"]), Slot(600, ["bob"])]
  {
    var first := [Slot(540, ["ann"]), Slot(570, ["ann"])];
    var other := [Slot(570, ["bob"]), Slot(600, ["bob"])];
    assert other[..1] == [other[0]];
    assert other[..1][..0] == [];
    var once := RoundRobinAdd(first, other[0]);
    assert FirstMatch(first, 570) == 1;
    assert ["ann"] + ["bob"] == ["ann", "bob"];
    assert once == [Slot(540, ["ann"]), Slot(570, ["ann", "bob"])];
    assert RoundRobinStep(first, other[..1]) == once;
    assert FirstMatch(once, 600) == -1;
    assert RoundRobinStep(first, other) == once + [other[1]];
    assert [first, other][..1] == [first];
  }
}

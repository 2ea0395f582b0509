/**
 * The `useSlots` hook without its React state: each user's availability
 * response is turned into that user's free slots, the per-user lists are
 * pooled by the event's scheduling type, and the result is sorted by time.
 */
module UseSlots {
  import opened Options
  import opened JsRuntime
  import opened Sequences
  import opened Conflicts
  import opened Pooling

  /**
   * One user's availability response once fetched and parsed: the URL it
   * was fetched from, the busy intervals of its body, and the candidate
   * start times that `getSlots` derives from its working hours and time zone.
   */
  datatype AvailabilityResponse = AvailabilityResponse(url: string, busy: seq<BusyTime>, candidates: seq<int>)

  /** `res.url.substring(res.url.lastIndexOf("/") + 1, res.url.indexOf("?"))`. */
  function UserFromUrl(url: string): (r: string)
    ensures LastIndexOf(url, '/') < IndexOf(url, '?') ==> '/' !in r && '?' !in r
  {
    Substring(url, LastIndexOf(url, '/') + 1, IndexOf(url, '?'))
  }

  /**
   * For a request URL `p/u?q`, where the query `q` holds no "/" (it is
   * percent-encoded), the username `u` holds neither "/" nor "?", and the
   * path `p` holds no "?", the username read back is `u`.
   */
  lemma UserFromRequestUrl(p: string, u: string, q: string)
    requires '?' !in p && '/' !in u && '?' !in u && '/' !in q
    ensures UserFromUrl(p + "/" + u + "?" + q) == u
  {
    var url := p + "/" + u + "?" + q;
    var slash, mark := |p|, |p| + 1 + |u|;
    assert url[slash + 1..] == u + "?" + q;
    LastIndexOfAt(url, '/', slash);
    assert url[..mark] == p + "/" + u;
    IndexOfAt(url, '?', mark);
    assert url[slash + 1..mark] == u;
  }

  /**
   * Without a "?" in the URL, `indexOf` gives -1, `substring` swaps its
   * bounds, and the "username" is the URL up to and including its last "/".
   */
  lemma UserFromUrlWithoutQuery(url: string)
    requires '?' !in url
    ensures UserFromUrl(url) == url[..LastIndexOf(url, '/') + 1]
  {
  }

  /** `times.map(time => ({ time, users: [user] }))`. */
  function Tag(times: seq<int>, user: string): (r: seq<Slot>)
    ensures |r| == |times|
    ensures forall s :: s in r ==> s.users == [user]
    ensures forall t :: t in TimeSet(r) <==> t in times
  {
    var r := seq(|times|, k requires 0 <= k < |times| => Slot(times[k], [user]));
    assert forall t :: t in times ==> t in TimeSet(r) by {
      forall t | t in times ensures t in TimeSet(r) {
        var k :| 0 <= k < |times| && times[k] == t;
        assert r[k] in r;
      }
    }
    r
  }

  /** What `handleAvailableSlots` returns for one response. */
  function AvailableSlots(response: AvailabilityResponse, eventLength: int): seq<Slot>
  {
    Tag(KeepFree(response.candidates, response.busy, eventLength), UserFromUrl(response.url))
  }

  /**
   * The slots of one user: one per free candidate, in candidate order,
   * each naming that user alone.
   */
  lemma AvailableSlotsShape(response: AvailabilityResponse, eventLength: int)
    ensures var r := AvailableSlots(response, eventLength);
      |r| <= |response.candidates|
      && (forall k :: 0 <= k < |r| ==> r[k].users == [UserFromUrl(response.url)])
      && (forall t :: t in TimeSet(r) <==> t in response.candidates && IsFree(t, eventLength, response.busy))
      && HasUsers(r)
  {
    var times := KeepFree(response.candidates, response.busy, eventLength);
    var r := AvailableSlots(response, eventLength);
    KeepFreeCharacterization(response.candidates, response.busy, eventLength);
    forall t ensures t in TimeSet(r) <==> t in times {
      if t in times {
        var k :| 0 <= k < |times| && times[k] == t;
        assert r[k] in r;
      }
    }
  }

  /** `handleAvailableSlots` once the response body is parsed and `getSlots` has run. */
  method HandleAvailableSlots(response: AvailabilityResponse, eventLength: int) returns (slots: seq<Slot>)
    ensures slots == AvailableSlots(response, eventLength)
    ensures |slots| <= |response.candidates|
    ensures forall k :: 0 <= k < |slots| ==> slots[k].users == [UserFromUrl(response.url)]
    ensures forall t :: t in TimeSet(slots) <==> t in response.candidates && IsFree(t, eventLength, response.busy)
  {
    var times := FilterConflicts(response.candidates, response.busy, eventLength);
    var user := UserFromUrl(response.url);
    slots := seq(|times|, k requires 0 <= k < |times| => Slot(times[k], [user]));
    AvailableSlotsShape(response, eventLength);
  }

  // ------------------------------------------------------------------ sorting

  predicate SortedByTime(s: seq<Slot>)
  {
    forall i, j :: 0 <= i < j < |s| ==> s[i].time <= s[j].time
  }

  function InsertByTime(x: Slot, s: seq<Slot>): (r: seq<Slot>)
    requires SortedByTime(s)
    ensures SortedByTime(r)
    ensures multiset(r) == multiset(s) + multiset{x}
    ensures |r| == |s| + 1 && (r[0] == x || (s != [] && r[0] == s[0]))
  {
    if s == [] || x.time <= s[0].time then [x] + s
    else
      assert s == [s[0]] + s[1..];
      assert SortedByTime(s[1..]);
      var rest := InsertByTime(x, s[1..]);
      assert s[0].time <= rest[0].time;
      assert multiset([s[0]] + rest) == multiset{s[0]} + multiset(rest);
      [s[0]] + rest
  }

  /**
   * `slots.sort((a, b) => (a.time.isAfter(b.time) ? 1 : -1))`: the same
   * slots, in nondecreasing time order.
   */
  function SortByTime(s: seq<Slot>): (r: seq<Slot>)
    ensures SortedByTime(r)
    ensures multiset(r) == multiset(s)
  {
    if s == [] then []
    else
      assert s == [s[0]] + s[1..];
      InsertByTime(s[0], SortByTime(s[1..]))
  }

  // --------------------------------------------------------- the whole hook

  /** What the hook may be given: one result per user, and a scheduling type whenever there are several users. */
  predicate Loadable(results: seq<seq<Slot>>, schedulingType: Option<SchedulingType>)
  {
    |results| >= 1 && (|results| > 1 ==> schedulingType.Some? && Poolable(schedulingType.value, results))
  }

  /** The pooled list before sorting: the only user's list unchanged, else the fold over all users. */
  function PooledSlots(results: seq<seq<Slot>>, schedulingType: Option<SchedulingType>): seq<Slot>
    requires Loadable(results, schedulingType)
  {
    if |results| == 1 then results[0] else Pooled(schedulingType.value, results)
  }

  /** The `.then` continuation of `Promise.all`, from `results` to the sorted slot list. */
  method LoadSlots(results: seq<seq<Slot>>, schedulingType: Option<SchedulingType>) returns (loadedSlots: seq<Slot>)
    requires Loadable(results, schedulingType)
    ensures loadedSlots == SortByTime(PooledSlots(results, schedulingType))
    ensures SortedByTime(loadedSlots)
    ensures multiset(loadedSlots) == multiset(PooledSlots(results, schedulingType))
    ensures |results| == 1 ==> multiset(loadedSlots) == multiset(results[0])
  {
    loadedSlots := results[0];
    if |results| == 1 {
      loadedSlots := SortByTime(loadedSlots);
      return;
    }
    loadedSlots := Pool(schedulingType.value, results);
    loadedSlots := SortByTime(loadedSlots);
  }

  /** Each user's slots, in the order of the users (as `Promise.all` keeps it). */
  function AllAvailableSlots(responses: seq<AvailabilityResponse>, eventLength: int): seq<seq<Slot>>
  {
    seq(|responses|, i requires 0 <= i < |responses| => AvailableSlots(responses[i], eventLength))
  }

  lemma AllAvailableSlotsLoadable(responses: seq<AvailabilityResponse>, eventLength: int, schedulingType: Option<SchedulingType>)
    requires |responses| >= 1 && (|responses| > 1 ==> schedulingType.Some?)
    ensures Loadable(AllAvailableSlots(responses, eventLength), schedulingType)
  {
  }

  /** The final slot list of the hook. */
  function FinalSlots(responses: seq<AvailabilityResponse>, eventLength: int, schedulingType: Option<SchedulingType>): seq<Slot>
    requires |responses| >= 1 && (|responses| > 1 ==> schedulingType.Some?)
  {
    AllAvailableSlotsLoadable(responses, eventLength, schedulingType);
    SortByTime(PooledSlots(AllAvailableSlots(responses, eventLength), schedulingType))
  }

  lemma AllAvailableSlotsSnoc(responses: seq<AvailabilityResponse>, i: nat, eventLength: int)
    requires i < |responses|
    ensures AllAvailableSlots(responses[..i + 1], eventLength)
         == AllAvailableSlots(responses[..i], eventLength) + [AvailableSlots(responses[i], eventLength)]
  {
    var a := AllAvailableSlots(responses[..i + 1], eventLength);
    var b := AllAvailableSlots(responses[..i], eventLength) + [AvailableSlots(responses[i], eventLength)];
    assert |a| == |b|;
    forall k | 0 <= k < |a| ensures a[k] == b[k] {
      if k < i {
        assert responses[..i + 1][k] == responses[..i][k];
      }
    }
  }

  /** `Promise.all(users.map(... .then(handleAvailableSlots)))` once every fetch has succeeded. */
  method HandleAll(responses: seq<AvailabilityResponse>, eventLength: int) returns (results: seq<seq<Slot>>)
    ensures results == AllAvailableSlots(responses, eventLength)
  {
    results := [];
    for i := 0 to |responses|
      invariant |results| == i
      invariant results == AllAvailableSlots(responses[..i], eventLength)
    {
      var r := HandleAvailableSlots(responses[i], eventLength);
      AllAvailableSlotsSnoc(responses, i, eventLength);
      results := results + [r];
    }
    assert responses[..|responses|] == responses;
  }

  /**
   * The hook's effect from the users' responses to `setSlots`: every
   * response goes through `handleAvailableSlots`, then the results are
   * pooled and sorted.
   */
  method ComputeSlots(responses: seq<AvailabilityResponse>, eventLength: int, schedulingType: Option<SchedulingType>)
    returns (slots: seq<Slot>)
    requires |responses| >= 1
    requires |responses| > 1 ==> schedulingType.Some?
    ensures slots == FinalSlots(responses, eventLength, schedulingType)
    ensures SortedByTime(slots)
  {
    var results := HandleAll(responses, eventLength);
    AllAvailableSlotsLoadable(responses, eventLength, schedulingType);
    slots := LoadSlots(results, schedulingType);
  }

  lemma InSortedIffIn(s: seq<Slot>, x: Slot)
    ensures x in SortByTime(s) <==> x in s
  {
    assert x in SortByTime(s) <==> multiset(SortByTime(s))[x] > 0;
  }

  /**
   * With one user, or under COLLECTIVE, every final slot is a slot of the
   * first user, still naming that user alone, and its time is a candidate
   * of every user that none of that user's busy intervals conflicts with.
   */
  lemma CollectiveSlotsFreeForAll(responses: seq<AvailabilityResponse>, eventLength: int, schedulingType: Option<SchedulingType>)
    requires |responses| >= 1
    requires |responses| == 1 || schedulingType == Some(Collective)
    ensures forall s :: s in FinalSlots(responses, eventLength, schedulingType) ==>
      s.users == [UserFromUrl(responses[0].url)]
      && forall i :: 0 <= i < |responses| ==>
           s.time in responses[i].candidates && IsFree(s.time, eventLength, responses[i].busy)
  {
    var results := AllAvailableSlots(responses, eventLength);
    AllAvailableSlotsLoadable(responses, eventLength, schedulingType);
    forall s | s in FinalSlots(responses, eventLength, schedulingType)
      ensures s.users == [UserFromUrl(responses[0].url)]
      ensures forall i :: 0 <= i < |responses| ==>
                s.time in responses[i].candidates && IsFree(s.time, eventLength, responses[i].busy)
    {
      var pooled := PooledSlots(results, schedulingType);
      InSortedIffIn(pooled, s);
      assert s in pooled;
      if |results| == 1 {
        assert InAll(s.time, results[1..]);
      } else {
        CollectivePooled(results);
        OfferedByAllCharacterization(results[0], results[1..]);
      }
      assert s in results[0] && InAll(s.time, results[1..]);
      AvailableSlotsShape(responses[0], eventLength);
      forall i | 0 <= i < |responses|
        ensures s.time in responses[i].candidates && IsFree(s.time, eventLength, responses[i].busy)
      {
        AvailableSlotsShape(responses[i], eventLength);
        if i > 0 {
          assert results[1..][i - 1] == results[i];
        }
        assert s.time in TimeSet(results[i]);
      }
    }
  }

  lemma SortKeepsTimes(s: seq<Slot>)
    ensures TimeSet(SortByTime(s)) == TimeSet(s)
  {
    forall t | t in TimeSet(SortByTime(s)) ensures t in TimeSet(s) {
      var x :| x in SortByTime(s) && x.time == t;
      InSortedIffIn(s, x);
    }
    forall t | t in TimeSet(s) ensures t in TimeSet(SortByTime(s)) {
      var x :| x in s && x.time == t;
      InSortedIffIn(s, x);
    }
  }

  /** Some user's slot list offers `t` exactly when `t` is a free candidate of that user. */
  lemma OfferedBySomeUser(responses: seq<AvailabilityResponse>, eventLength: int, t: int)
    ensures InSome(t, AllAvailableSlots(responses, eventLength)) <==>
      exists i :: 0 <= i < |responses| && t in responses[i].candidates && IsFree(t, eventLength, responses[i].busy)
  {
    var results := AllAvailableSlots(responses, eventLength);
    if InSome(t, results) {
      var i :| 0 <= i < |results| && t in TimeSet(results[i]);
      AvailableSlotsShape(responses[i], eventLength);
    }
    if exists i :: 0 <= i < |responses| && t in responses[i].candidates && IsFree(t, eventLength, responses[i].busy) {
      var i :| 0 <= i < |responses| && t in responses[i].candidates && IsFree(t, eventLength, responses[i].busy);
      AvailableSlotsShape(responses[i], eventLength);
      assert t in TimeSet(results[i]);
    }
  }

  /**
   * Under ROUND_ROBIN, the final list offers exactly the times that are a
   * free candidate of at least one user.
   */
  lemma RoundRobinSlotsFreeForSomeUser(responses: seq<AvailabilityResponse>, eventLength: int)
    requires |responses| >= 1
    ensures forall t :: t in TimeSet(FinalSlots(responses, eventLength, Some(RoundRobin))) <==>
      exists i :: 0 <= i < |responses| && t in responses[i].candidates && IsFree(t, eventLength, responses[i].busy)
  {
    var results := AllAvailableSlots(responses, eventLength);
    AllAvailableSlotsLoadable(responses, eventLength, Some(RoundRobin));
    var pooled := PooledSlots(results, Some(RoundRobin));
    RoundRobinPooledTimes(results);
    SortKeepsTimes(pooled);
    forall t ensures t in TimeSet(FinalSlots(responses, eventLength, Some(RoundRobin))) <==>
      exists i :: 0 <= i < |responses| && t in responses[i].candidates && IsFree(t, eventLength, responses[i].busy)
    {
      OfferedBySomeUser(responses, eventLength, t);
    }
  }

  /** Sorting does not change who is named at which time. */
  lemma SortKeepsNames(s: seq<Slot>, t: int, u: string)
    ensures Names(SortByTime(s), t, u) <==> Names(s, t, u)
  {
    if Names(SortByTime(s), t, u) {
      var x :| x in SortByTime(s) && x.time == t && u in x.users;
      InSortedIffIn(s, x);
    }
    if Names(s, t, u) {
      var x :| x in s && x.time == t && u in x.users;
      InSortedIffIn(s, x);
    }
  }

  /** One user's slots name that user, and only that user, at each of its free candidates. */
  lemma AvailableSlotsNames(response: AvailabilityResponse, eventLength: int, t: int, u: string)
    ensures Names(AvailableSlots(response, eventLength), t, u) <==>
      u == UserFromUrl(response.url) && t in response.candidates && IsFree(t, eventLength, response.busy)
    ensures Leads(AvailableSlots(response, eventLength), t, u) <==> Names(AvailableSlots(response, eventLength), t, u)
  {
    var r := AvailableSlots(response, eventLength);
    AvailableSlotsShape(response, eventLength);
    if Names(r, t, u) {
      var s :| s in r && s.time == t && u in s.users;
      assert t in TimeSet(r);
    }
    if u == UserFromUrl(response.url) && t in TimeSet(r) {
      var s :| s in r && s.time == t;
      assert u in s.users && s.users[0] == u;
    }
    if Leads(r, t, u) {
      var s :| s in r && |s.users| > 0 && s.time == t && s.users[0] == u;
      assert u in s.users;
    }
  }

  /** Some host has username `u` and `t` among its free candidates. */
  predicate FreeHost(responses: seq<AvailabilityResponse>, eventLength: int, t: int, u: string)
  {
    exists i :: 0 <= i < |responses| && u == UserFromUrl(responses[i].url)
      && t in responses[i].candidates && IsFree(t, eventLength, responses[i].busy)
  }

  /** Some host's slots name `u` at `t` exactly when `u` is a free host at `t`. */
  lemma NamedByFreeHost(responses: seq<AvailabilityResponse>, eventLength: int, t: int, u: string)
    ensures NamedBySome(AllAvailableSlots(responses, eventLength), t, u) <==> FreeHost(responses, eventLength, t, u)
    ensures FreeHost(responses, eventLength, t, u) ==>
      exists i :: 0 <= i < |responses| && Leads(AllAvailableSlots(responses, eventLength)[i], t, u)
  {
    var results := AllAvailableSlots(responses, eventLength);
    if NamedBySome(results, t, u) {
      var i :| 0 <= i < |results| && Names(results[i], t, u);
      AvailableSlotsNames(responses[i], eventLength, t, u);
    }
    if FreeHost(responses, eventLength, t, u) {
      var i :| 0 <= i < |responses| && u == UserFromUrl(responses[i].url)
        && t in responses[i].candidates && IsFree(t, eventLength, responses[i].busy);
      AvailableSlotsNames(responses[i], eventLength, t, u);
      assert results[i] == AvailableSlots(responses[i], eventLength);
    }
  }

  /**
   * Under ROUND_ROBIN, a final slot at `t` names `u` exactly when `u` is the
   * username of some host for whom `t` is a free candidate: no host is named
   * at a time it is busy or not working, and every free host is named.
   */
  lemma RoundRobinSlotsNameFreeUsers(responses: seq<AvailabilityResponse>, eventLength: int)
    requires |responses| >= 1
    ensures forall t, u :: Names(FinalSlots(responses, eventLength, Some(RoundRobin)), t, u) <==>
      FreeHost(responses, eventLength, t, u)
  {
    var results := AllAvailableSlots(responses, eventLength);
    AllAvailableSlotsLoadable(responses, eventLength, Some(RoundRobin));
    var pooled := PooledSlots(results, Some(RoundRobin));
    assert pooled == Pooled(RoundRobin, results);
    RoundRobinPooledNames(results);
    forall t, u ensures Names(FinalSlots(responses, eventLength, Some(RoundRobin)), t, u) <==> FreeHost(responses, eventLength, t, u)
    {
      SortKeepsNames(pooled, t, u);
      NamedByFreeHost(responses, eventLength, t, u);
      if FreeHost(responses, eventLength, t, u) {
        var i :| 0 <= i < |responses| && Leads(results[i], t, u);
        if i == 0 {
          AvailableSlotsNames(responses[0], eventLength, t, u);
        }
      }
    }
  }
}

# Slot computation of a booking calendar, in Dafny

This project models the part of the calendar's booking page that decides which
start times are offered for an event: the `useSlots` hook and the minutes to
"HH:MM" conversion of the availability page.

- **Conflict filter** (`handleAvailableSlots`). Each host's candidate start
  times are matched against the host's busy intervals. A candidate is dropped
  when a busy interval makes one of three tests true:
  - the slot starts in `[start, end)`;
  - the slot's end lies in `(start, end)`;
  - the busy start lies strictly inside the slot.

  The loop walks the candidates from the last index down and splices each
  conflicting one out in place. The survivors are tagged with the username
  taken from the response URL.
- **Pooling** across hosts, chosen by the event's scheduling type:
  - COLLECTIVE keeps the first host's slots whose time every other host
    offers;
  - ROUND_ROBIN merges each other host's list into the accumulated list in
    place. It adds the host to an existing slot at the same time, or appends
    the new slot.
- **Ordering.** The pooled list, or the single host's list, is sorted by time.
- **Clock text.** `convertMinsToHrsMins` renders a minute count as `H:MM`. The
  edit form splits that text at ":" and recombines `hours * 60 + minutes`.

Instants are whole minutes on one absolute time line (`int`), and the event
length is a minute count. Strings are `seq<char>`. Slots are values: a
`Slot(time, users)` datatype.

The modules follow the source:
- `Conflicts` (conflicts.dfy): the conflict loop.
- `Pooling` (pooling.dfy): the two pooling methods and the fold over hosts.
- `UseSlots` (use_slots.dfy): tagging, sorting, and the hook end to end.
- `Availability` (availability.dfy): the availability page's conversion.
- `JsRuntime` (js_runtime.dfy): the JavaScript built-ins these rely on (`indexOf`,
  `lastIndexOf`, `substring`, `%`, `String(n)`, `parseInt`, `split`).
- `Sequences` (sequences.dfy): order-preserving subsequences.
- `Options` (options.dfy): `None` for `NaN`.

Behaviours of the code that the model keeps as written:
- Under COLLECTIVE a kept slot is the first host's slot object, unchanged, so
  `users` names the first host only. `Pooling.CollectiveTwoHosts` shows this
  on two hosts.
- A failed fetch is caught and yields `undefined` in place of that host's
  list; see "## Left out" for when pooling then throws. The model takes every
  host's response as present.
- Under ROUND_ROBIN, `compare.users[0]` is appended once for every matching
  compared slot. Contributors are not deduplicated.

## Model

| member | source | states |
|---|---|---|
| Conflicts.FilterConflicts | lib/hooks/useSlots.ts:116-137 | The backward loop with in-place `splice` and the short-circuiting `every` leaves exactly `KeepFree(candidates)`. Its invariants state that the part still to visit is never shifted. |
| Conflicts.KeepFree | lib/hooks/useSlots.ts:116-137 | The filtered list is no longer than the input. Every time it keeps is an input time that no busy interval conflicts with. |
| Conflicts.KeepFreeCharacterization | lib/hooks/useSlots.ts:116-137 | The output is an order-preserving subsequence of the input. A time is in it iff it is an input time free of all busy intervals. Each free time keeps its multiplicity, and conflicting times occur zero times. |
| Conflicts.ConflictsIsOverlap | lib/hooks/useSlots.ts:121-131 | When busy `start < end` and the length is positive, the three tests hold together iff the half-open slot and busy interval overlap: `start < t + len && t < end`. |
| Conflicts.Boundaries | lib/hooks/useSlots.ts:122-130 | Three boundary cases: a slot starting at a busy end is kept; a slot ending at a busy start is kept; a slot starting at a busy start is removed. |
| UseSlots.UserFromUrl | lib/hooks/useSlots.ts:140 | When the first "?" comes after the last "/", the username holds neither "/" nor "?". The exact text is stated by `UseSlots.UserFromRequestUrl` and `UseSlots.UserFromUrlWithoutQuery`. |
| UseSlots.UserFromRequestUrl | lib/hooks/useSlots.ts:140 | For a URL `p/u?q` the username read back is `u`. This needs no "?" in `p`, no "/" or "?" in `u`, and no "/" in `q`. |
| UseSlots.UserFromUrlWithoutQuery | lib/hooks/useSlots.ts:140 | Without a "?" in the URL, `substring` swaps its bounds, and the result is the URL up to and including its last "/". |
| UseSlots.Tag | lib/hooks/useSlots.ts:141-144 | One slot per time, each naming the given user alone, and the slots offer exactly the given times. |
| UseSlots.AvailableSlotsShape | lib/hooks/useSlots.ts:139-144 | One host's slots number at most the candidates. Each names that host alone, and their times are exactly the host's free candidates. |
| UseSlots.AvailableSlotsNames | lib/hooks/useSlots.ts:106-145 | One host's slots name user `u` at `t` iff `u` is that host's username and `t` is a free candidate of that host. On these slots the named user is also the first user. |
| UseSlots.HandleAvailableSlots | lib/hooks/useSlots.ts:106-145 | Filtering and then tagging gives the host's slots: at most one per candidate, each with `users == [username]`. |
| Pooling.CollectiveStep | lib/hooks/useSlots.ts:77-78 | The `filter`/`some` step is never longer than the accumulated list, and it is empty when the other host offers nothing. Which slots it keeps is stated by `Pooling.CollectiveStepNarrows` and `Pooling.CollectivePooled`. |
| Pooling.CollectiveStepNarrows | lib/hooks/useSlots.ts:76-78 | Each COLLECTIVE step narrows the first host's slots to those whose time one more list also offers. |
| Pooling.OfferedByAllCharacterization | lib/hooks/useSlots.ts:76-78 | The COLLECTIVE reference result is a subsequence of the first host's slots, so slots and their `users` are untouched. A slot is in it iff every other list offers its time. |
| Pooling.CollectivePooled | lib/hooks/useSlots.ts:76-99 | Folding COLLECTIVE over hosts 1..n-1 gives the first host's slots whose time all other hosts offer, in the first host's order. |
| Pooling.FirstMatch | lib/hooks/useSlots.ts:85 | `findIndex` gives -1 iff no slot has the time; otherwise it gives the first slot with that time. |
| Pooling.FindIndex | lib/hooks/useSlots.ts:85 | The search loop returns the same index as `FirstMatch`. |
| Pooling.RoundRobinMerge | lib/hooks/useSlots.ts:83-93 | The in-place `forEach` merge equals `RoundRobinStep`, one compared slot after another. |
| Pooling.RoundRobinAdd | lib/hooks/useSlots.ts:84-91 | One `forEach` body grows the list by at most one slot. Which slot changes is stated by `Pooling.RoundRobinAddShape`. |
| Pooling.RoundRobinAddShape | lib/hooks/useSlots.ts:84-91 | With `m` the `findIndex` of the compared time, nothing is appended iff `m != -1`. Then exactly slot `m` gains `compare.users[0]` and every other slot is unchanged. Otherwise `compare` itself is appended and every existing slot is unchanged. |
| Pooling.RoundRobinAddTimes | lib/hooks/useSlots.ts:84-91 | One addition offers the old times plus the compared one, and adds no duplicate time. |
| Pooling.RoundRobinAddNames | lib/hooks/useSlots.ts:84-91 | One addition names a user at a time only if the list or `compare` named them there. It drops nobody, and it names `compare.users[0]` at the compared time. |
| Pooling.RoundRobinStep | lib/hooks/useSlots.ts:83-93 | The additions for each compared slot, in order, grow the list by at most one slot per compared slot and never shrink it. The `RoundRobinStep*` lemmas state the rest, and `Pooling.RoundRobinMerge` is proved equal to it. |
| Pooling.RoundRobinStepNames | lib/hooks/useSlots.ts:83-93 | After a step, a user on a slot at `t` was named at `t` by the accumulated list or by a compared slot. Everyone named before is still named at that time, and so is the first user of every compared slot. |
| Pooling.RoundRobinStepKeepsSlots | lib/hooks/useSlots.ts:83-93 | A ROUND_ROBIN step removes no slot: every existing slot keeps its place and time, and its users are only appended to. |
| Pooling.RoundRobinStepTimes | lib/hooks/useSlots.ts:83-93 | A ROUND_ROBIN step offers exactly the union of both lists' times. |
| Pooling.RoundRobinStepDistinct | lib/hooks/useSlots.ts:83-93 | A ROUND_ROBIN step adds no duplicate time to a list without one. |
| Pooling.Pooled | lib/hooks/useSlots.ts:97-99 | The fold over hosts 1..n-1 from the first host's list. It is never longer than the first list under COLLECTIVE and never shorter under ROUND_ROBIN. The rest is stated by `Pooling.CollectivePooled`, `Pooling.RoundRobinPooledTimes`, `Pooling.RoundRobinPooledNames` and `Pooling.RoundRobinPooledKeepsFirst`. |
| Pooling.Pool | lib/hooks/useSlots.ts:97-99 | The loop reassigning `loadedSlots` computes the fold `Pooled`. |
| Pooling.RoundRobinPooledNames | lib/hooks/useSlots.ts:80-99 | Under ROUND_ROBIN over all hosts, a user on a pooled slot at `t` is named at `t` by some host's list. Everyone the first list names, and the first user of every other list's slot, is named on a pooled slot at that time. |
| Pooling.RoundRobinPooledTimes | lib/hooks/useSlots.ts:80-99 | ROUND_ROBIN over all hosts offers exactly the times some host offers. |
| Pooling.RoundRobinPooledKeepsFirst | lib/hooks/useSlots.ts:80-99 | Under ROUND_ROBIN the first host's slots stay in front, in place, never losing a user; distinct first-host times stay distinct. |
| Pooling.CollectiveWithinRoundRobin | lib/hooks/useSlots.ts:73-99 | Every time COLLECTIVE offers, ROUND_ROBIN offers for the same lists. |
| Pooling.CollectiveTwoHosts | lib/hooks/useSlots.ts:76-78 | Hosts free at {09:00, 09:30} and {09:30, 10:00}: COLLECTIVE yields only 09:30, naming the first host only. |
| Pooling.RoundRobinTwoHosts | lib/hooks/useSlots.ts:83-93 | The same hosts under ROUND_ROBIN: 09:00 (first host), 09:30 (both, in order), 10:00 (second host). |
| UseSlots.InsertByTime | lib/hooks/useSlots.ts:100 | Inserting into a time-sorted list keeps it sorted and adds exactly that slot. |
| UseSlots.SortByTime | lib/hooks/useSlots.ts:100 | The sort result is nondecreasing by time and a permutation of its input. |
| UseSlots.SortKeepsTimes | lib/hooks/useSlots.ts:100 | Sorting does not change the set of offered times. |
| UseSlots.LoadSlots | lib/hooks/useSlots.ts:64-103 | The final list is a time-sorted permutation of the pooled list. With a single host it is a permutation of that host's list, with no pooling. |
| UseSlots.HandleAll | lib/hooks/useSlots.ts:55-64 | `Promise.all` yields each host's slots in host order. |
| UseSlots.ComputeSlots | lib/hooks/useSlots.ts:46-103 | The hook's whole effect: every response is handled, then pooled and sorted. The result is sorted. |
| UseSlots.CollectiveSlotsFreeForAll | lib/hooks/useSlots.ts:64-100 | With one host, or under COLLECTIVE, every final slot names the first host alone. Its time is a candidate of every host, and none of that host's busy intervals conflicts with it. |
| UseSlots.RoundRobinSlotsFreeForSomeUser | lib/hooks/useSlots.ts:64-100 | Under ROUND_ROBIN, a time is offered iff it is a free candidate of at least one host. |
| UseSlots.SortKeepsNames | lib/hooks/useSlots.ts:100 | Sorting does not change who is named at which time. |
| UseSlots.NamedByFreeHost | lib/hooks/useSlots.ts:55-64 | Some host's slot list names `u` at `t` iff `u` is the username of a host with `t` among its free candidates. That host's list then has `u` as the first user at `t`. |
| UseSlots.RoundRobinSlotsNameFreeUsers | lib/hooks/useSlots.ts:64-100 | Under ROUND_ROBIN, a final slot at `t` names `u` iff `u` is the username of some host for whom `t` is a free candidate. No host is named at a time it is busy, and every free host is named. |
| Availability.ConvertMinsToHrsMins | pages/availability/index.tsx:28-34 | The text always holds a ":". For non-negative counts, the exact form is stated by `Availability.ClockFormat` and `Availability.RoundTrip`. |
| Availability.ClockFormat | pages/availability/index.tsx:28-34 | For `mins >= 0` the text is digits, ":", then two digits. The hours digits read `mins / 60` and have one leading "0" below 10 hours and none from 10 on. The minute digits read `mins % 60`, in 0..59. |
| Availability.RecombineMinutes | pages/availability/index.tsx:182-184 | `parseInt(h) * 60 + parseInt(m)` is a number iff both fields parse. |
| Availability.RoundTrip | pages/availability/index.tsx:182-184 | For `mins >= 0`, splitting the text at ":" (as the form reset at lines 75-80 does) gives two fields, and recombining them gives back `mins`. |
| JsRuntime.IndexOf | lib/hooks/useSlots.ts:140 | `indexOf` gives -1 iff the character is absent; otherwise it gives its first position. |
| JsRuntime.LastIndexOf | lib/hooks/useSlots.ts:140 | `lastIndexOf` gives -1 iff the character is absent; otherwise it gives its last position. |
| JsRuntime.Substring | lib/hooks/useSlots.ts:140 | `substring` gives the slice between in-range bounds, swapping reversed bounds and clamping a negative end to 0. |
| JsRuntime.Remainder | pages/availability/index.tsx:30 | `%` is the truncated remainder. It equals the mathematical remainder for a non-negative dividend, lies in `(-b, 0]` for a negative one, and differs from the dividend by a multiple of `b`. Together these fix the value. |
| JsRuntime.IntToString | pages/availability/index.tsx:31-33 | `String(n)` is non-empty, starts with "-" iff `n < 0`, and is digits apart from that sign. For a non-negative `n`, `JsRuntime.NatToString` states the digits. |
| JsRuntime.ParseInt | pages/availability/index.tsx:182-184 | `parseInt`: an optional sign, then the leading digits, or `NaN` without any. Its round trip is stated by `JsRuntime.ParseIntOfNatToString`. |
| JsRuntime.Split | pages/availability/index.tsx:75-80 | `split` at a one-character separator. Its properties are stated by `JsRuntime.SplitTwo`. |
| JsRuntime.NatToString | pages/availability/index.tsx:31-33 | `String(n)` is at least one digit, with exactly one digit iff `n < 10` and no leading zero from 10 on. |
| JsRuntime.ParseIntOfNatToString | pages/availability/index.tsx:182-184 | `parseInt(String(n)) == n`, also with one leading "0". |
| JsRuntime.SplitTwo | pages/availability/index.tsx:75-80 | Splitting `a:b` at ":", when neither side holds ":", gives `[a, b]`. |

## Left out

- Candidate generation (`getSlots` of `@lib/slots`) is not part of this model. It covers working hours, minimum notice and the organizer's time zone. Its output is an input here, `AvailabilityResponse.candidates`. Time zones and dayjs date arithmetic are not modelled.
- React state (`useState`, `useEffect`, `setSlots`, `setLoading`, `setError`) is presentation plumbing and is left out.
- The network is left out: `fetch`, `res.json()` and the concurrency of `Promise.all`. A response is taken already parsed, and results come in host order.
- The failure path is left out. A failed fetch yields `undefined` as that host's list. Under ROUND_ROBIN the merge then always throws, since it iterates over that list. Under COLLECTIVE it throws only while the accumulated list is non-empty: `[].filter` never calls its callback, so a failed host after the accumulated list has become empty is never read, and `[]` results. A failed first host throws under either type. With one host, `setSlots(undefined)` results. The model takes every response as present (`UseSlots.ComputeSlots` receives a `seq` of responses).
- With several hosts and a null scheduling type, `poolingMethod` is undefined and the call throws. `UseSlots.LoadSlots` and `UseSlots.ComputeSlots` require a scheduling type when there are several hosts; zero hosts are excluded the same way.
- dayjs `isBetween` is modelled in its forward form only. Some dayjs versions also match when the two bounds are given in reverse order; that adds nothing when busy `start < end` and the length is positive. Millisecond precision is replaced by whole minutes.
- Pooling.RoundRobinMerge requires every compared slot to name a user. With an empty `users` array, JavaScript would push `undefined`; compared lists always come from the tagging step, where `users == [username]`.
- Object aliasing in ROUND_ROBIN is not modelled: a pushed `compare` object is shared with the host's list. Each host's list is read only during its own step, so treating slots as values gives the same pooled list.
- UseSlots.SortByTime is an insertion sort on values, not the engine's in-place `Array.prototype.sort`. It states only "nondecreasing and a permutation". The comparator never returns 0, so it is inconsistent on equal times, and ECMAScript leaves the order among equal times to the engine.
- Pooling.RoundRobinStepKeepsSlots states that users are only appended. It does not say which host is appended for each time. `Pooling.RoundRobinAddShape` states that for one addition, and `Pooling.RoundRobinStepNames` states who is named at each time.
- JsRuntime.ParseInt does not model leading whitespace, a "0x" prefix or radix detection. The form fields it reads are digit strings.
- `String(n)` for magnitudes of 10^21 and above uses exponent notation in JavaScript; this is not modelled, and minute counts stay far below that.
- Non-integer minute counts are not modelled; `convertMinsToHrsMins` is only given stored integer minutes.
- The rest of the availability page is left out. `updateSchedule` and the PATCH request are network calls. `getServerSideProps` uses the database and the session. `formatSchedule` and `DEFAULT_SCHEDULE` are not part of this model. The form markup is UI.
- The login page, the team list and team screen, and the event-type description are UI, authentication and rendering, with no slot logic.

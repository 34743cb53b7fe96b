# Reservation queue and group-call core, in Dafny

This project models the decision logic of a two-day event's reservation
admin system. The system has two independent halves.

**Server scheduler (`app.py`).** Reservations (ids such as `A0001`, categories A/B pre-booked,
C/D walk-in, X/Y VIP with a time slot) are packed into numbered groups of at
most four people. The model covers:

- fresh group numbers, parity-preserving for pre-booked (odd) and walk-in (even) groups;
- first-fit placement;
- greedy packing of re-admitted ("priority") reservations into a new group;
- the call / reset / visit / cancel / absent lifecycle;
- refilling the seat an absent member leaves in the calling group, and the completion check;
- the `get_next_group` request as a whole;
- reservation id generation;
- the statistics counting pass.

**Client (`script.js`).** The model covers:

- the two queues of the group screen (normal lane and time-slot lane) and their sort orders;
- the drag-assembled staging group with its four-person limit;
- the fifteen-minute absence rule;
- the elapsed-time label;
- the reception flag in the settings cache.

The store is an immutable snapshot, `Snapshot.Store`. It holds reservation documents keyed by id, and one
group collection per day keyed by group number. Every server operation is a
pure function from a snapshot (plus explicit inputs) to the snapshot its
writes produce. Python truthiness is kept: a missing, `None` or `0` `group`
field is the number `0`, and a missing or empty `date` is `""`. Status codes
are the source's raw integers:

- group: 0 waiting, 1 calling, 2 completed;
- reservation: 0 waiting, 1 visited, 2 cancelled, 3 absent.

Modules, in dependency order:

- `Wrappers`: the `Option` type.
- `FiniteSets`: max/min of a finite set of integers and its ascending enumeration.
- `Strings`: lexicographic order by code point.
- `Decimal`: digit strings, parsing, rendering and zero-padding.
- `Snapshot`: the store, the day and collection rules, and group headcounts.
- `Allocation`: the two group-number allocators.
- `Placement`: first-fit placement.
- `PriorityGroups`: greedy priority packing.
- `Lifecycle`: status writes, the completion check and the seat refill.
- `Schedule`: `get_next_group`.
- `ReservationIds`: id generation.
- `Statistics`: the counting pass.
- Client side: `Lanes`, `Staging`, `Absence`, `Elapsed`, `Reception`.

Behaviour of the code worth knowing:

- **No single-caller guard.** `call_group` and `reset_group` write the status unconditionally. Nothing prevents two groups from being in status 1 at once (`Lifecycle.TwoGroupsCanBeCalling`).
- **Day lookup ignores `date`.** `fill_vacant_slot` and `check_and_complete_group` derive the day from the id prefix alone (`Snapshot.DefaultDay`). The other scans let an explicit `date` field win (`Snapshot.DayOf`). The two agree exactly when the date is absent or matches the prefix (`Snapshot.DayOfMatchesDefault`). When they disagree, a visit can leave a group calling although none of its members waits (`Lifecycle.DatedVipVisitLeavesGroupCalling`).
- **Walk order is by name.** `get_next_group` walks groups in document-name order, which is lexicographic on the decimal ids: group `10` comes before group `2`. The model takes that walk order as the input `order` rather than assuming numeric order.

## Model

| member | source | states |
|---|---|---|
| Snapshot.DayOfMatchesDefault | app.py:126-129 | the day the scans read (explicit date first) equals the id-prefix day of the refill and completion checks iff the record has no date or its date is that prefix day |
| Snapshot.DefaultCollection | app.py:535-537 | without a date, A, C and X reservations (and the empty id) are looked up in the first collection and all others in the second |
| Snapshot.HeadcountUnlisted | app.py:836-843 | writing a reservation that a group does not list leaves that group's headcount unchanged |
| Allocation.SkipTaken | app.py:657-658 | the retry loop ends on an unused number no smaller than its start, keeps parity when stepping by 2, and leaves an unused start alone |
| Allocation.NextAvailable | app.py:650-660 | 1 on an empty set; otherwise greater than every number in use (so unused), and exactly one past the maximum |
| Allocation.NextForKind | app.py:892-913 | 1 (pre-booked) or 2 (walk-in) on an empty set; otherwise greater than the maximum, odd iff pre-booked, unused, and within two of the maximum |
| Placement.ParityPartitionsEligible | app.py:826-834 | the odd and even candidate sets are disjoint and together are exactly the waiting groups, the candidates of an unfiltered placement |
| Placement.FirstFit | app.py:853-858 | the result is the lowest-numbered candidate whose headcount plus the party is at most 4; none means no candidate has room |
| Placement.AssignToGroup | app.py:815-873 | the chosen number has the entry's parity (odd iff A/B); only that group changes; it is the lowest fitting waiting group of that parity with the id appended, or, when none fits, the number `get_next_group_number` gives (`Allocation.NextForKind`: above all existing ones) holding only the id |
| Placement.AssignVipToGroup | app.py:584-631 | the same first fit over all waiting groups with no parity filter, else a fresh group numbered by `Allocation.NextAvailable` holding only the VIP; the reservation's group field records the number; a missing reservation is an error |
| Placement.AssignRespectsCapacity | app.py:856-858 | once the new reservation is stored, the group that received it holds at most 4 people (for a party of at most 4) |
| PriorityGroups.GreedyRule | app.py:297-300 | entry i is taken exactly when it fits on top of the counts taken before it; an overflowing entry is skipped and later ones are still tried |
| PriorityGroups.PickedWithinCapacity | app.py:297-300 | the taken entries sum to at most 4 |
| PriorityGroups.NothingPicked | app.py:308-320 | nothing is taken iff every entry alone exceeds 4 |
| PriorityGroups.Plan | app.py:285-319 | None iff nothing fits; otherwise a fresh number above every existing one (1 on an empty collection) and the taken ids in input order |
| PriorityGroups.AssignGroup | app.py:302-305 | every taken reservation points at the new group and no other reservation changes |
| PriorityGroups.CreatePriorityGroup | app.py:285-319 | on success a new waiting group flagged is_priority holds the taken ids (at most 4 people, at least one entry), only that group is added and only the taken reservations' group fields change; on None the store is unchanged and, if every id exists, every entry overflows |
| Lifecycle.CallGroup | app.py:230-239 | an error iff the number is 0 or the group does not exist; otherwise exactly that group's status becomes 1, whatever it was |
| Lifecycle.ResetGroup | app.py:255-263 | an error iff the number is 0 or the group does not exist; otherwise exactly that group's status becomes 0 |
| Lifecycle.CallThenResetRestores | app.py:236-263 | calling a waiting group and resetting it restores the snapshot |
| Lifecycle.TwoGroupsCanBeCalling | app.py:236-239 | two groups of one day can be calling at the same time |
| Lifecycle.NoneWaiting | app.py:551-561 | the scan is true iff no listed, existing reservation has status 0 |
| Lifecycle.OwnerGroupFollowsGroupField | app.py:526-542 | the group a reservation is checked against depends only on its id and group field: rewriting its status, priority, count, slot or date never changes it |
| Lifecycle.DatedVipVisitLeavesGroupCalling | app.py:535-542 | an X reservation dated 2025-11-02 sits in a calling group of the second collection, yet visiting it, the group's only member, leaves that group calling because the check looks in the first |
| Lifecycle.CheckAndCompleteGroup | app.py:547-568 | groups not calling are untouched; the owner group becomes completed iff it is calling and none of its existing members waits; only its status can change |
| Lifecycle.CheckAndCompleteIdempotent | app.py:547-568 | running the completion check twice equals running it once |
| Lifecycle.MarkVisit | app.py:377-383 | an error iff the reservation is missing; otherwise the record becomes status 1 without priority, no other record changes, no group appears or loses members, and the only status change a group can see is calling to completed, in the id's prefix-day collection |
| Lifecycle.VisitingLastWaitingCompletes | app.py:377-383 | visiting the last waiting member of a calling group completes that group |
| Lifecycle.MarkCancel | app.py:742 | an error iff the reservation is missing; otherwise only that record's status changes, to 2: its group field, every other record and both group collections stay as they were |
| Lifecycle.CancelNeverCompletes | app.py:740-742 | cancelling the last waiting member of a calling group leaves the group calling with no waiting member, where visiting that member would have completed it |
| Lifecycle.KeyBeforeIsStrictOrder | app.py:487 | the sort key (not priority, group, id) is a strict total order on reservations |
| Lifecycle.First | app.py:487-488 | the selected candidate sorts before every other candidate |
| Lifecycle.Replacement | app.py:436-488 | nothing unless the absent member's group is calling; otherwise the first, by the sort key, of the candidates: same-day, waiting, in a group numbered above the calling group and no larger than the absent party; none iff there is no candidate |
| Lifecycle.RemoveFirst | app.py:501-502 | list.remove is the identity when the id is absent and otherwise shortens the list by one |
| Lifecycle.RemoveFirstCutsFirstOccurrence | app.py:501-502 | list.remove cuts out exactly the first occurrence of the id and keeps everything before and after it in order |
| Lifecycle.FillVacantSlot | app.py:409-513 | nothing changes unless the group is calling; with no candidate the completion check runs; otherwise the pick points at the calling group with priority cleared, leaves its old group's list, and is appended to the calling list only if not already there; no other group changes |
| Lifecycle.FillKeepsCallingListDistinct | app.py:508-513 | a calling list without repeats stays without repeats after a refill and contains the pick |
| Lifecycle.MarkAbsent | app.py:395-402 | status 3 with the priority flag, then the refill; the absent member's own record is not changed further; an error iff the reservation is missing |
| Lifecycle.MarkAbsentKeepsWaitingHeadcount | app.py:470-473 | when a waiting member of the calling group goes absent, that group's waiting headcount does not grow |
| Schedule.ReadyVips | app.py:78-110 | a reservation is ready iff it is an X/Y reservation whose date field is the day, waiting, timed, within five minutes of its slot, and not yet grouped |
| Schedule.AssignVips | app.py:113-114 | placing the ready VIPs rewrites only group fields, never removes a group or shortens a member list, and leaves the other day's collection alone |
| Schedule.AssignVipsListsEveryVip | app.py:113-114 | after the VIP pass every ready VIP points at a group of the day that lists it |
| Schedule.PriorityEntries | app.py:117-140 | the priority candidates are exactly the day's waiting reservations with the priority flag, with their counts |
| Schedule.WaitingMembers | app.py:185-204 | the offered reservations are exactly the listed, existing, waiting ones |
| Schedule.WaitingMembersConcat | app.py:185-204 | the selection distributes over concatenation of the member list, so the offered reservations keep their order in the group |
| Schedule.PriorityEntriesConcat | app.py:117-140 | candidate collection distributes over concatenation of the stream, so candidates reach the greedy packing in stream order |
| Schedule.AnyPriority | app.py:187-196 | has_priority is set iff some offered reservation has the priority flag |
| Schedule.Walk | app.py:174-214 | the walk stops at the first group in walk order that is waiting and has a waiting member; none iff no such group exists |
| Schedule.OfferFrom | app.py:143-214 | the created priority group is offered iff its number is truthy (non-zero), it exists and it has a waiting member; otherwise the first offerable group of the walk, with has_priority as computed |
| Schedule.Prepare | app.py:78-144 | the writes before the answer only rewrite group fields and add or extend groups of the day; a created priority group is waiting, flagged, and numbered outside the original collection |
| Schedule.GetNextGroup | app.py:68-214 | the offered group is waiting with a waiting member, and its member list is those waiting members; a created group is fresh and flagged; a walked group is the first offerable one in walk order and has_priority matches its members; no offer means no group in the walk is offerable |
| Schedule.PriorityGroupComesFirst | app.py:143-171 | a waiting priority reservation of the day that fits alone always yields a freshly created priority group with has_priority, ahead of the walk |
| ReservationIds.IssuedGrows | app.py:798-805 | storing one more id of the category whose suffix parses as n adds exactly n to the issued numbers |
| ReservationIds.NextNumber | app.py:796-807 | one more than the largest issued number, or 1 when none is issued |
| ReservationIds.GenerateReservationId | app.py:807 | the id starts with the category and its suffix is exactly four characters, or the digit count of the next number when that is longer; for a one-letter category the suffix parses back to the next number |
| ReservationIds.GeneratedIdIsFresh | app.py:807 | for a one-letter category the generated id is not in use and its number exceeds every issued one |
| ReservationIds.NextIdAdvances | app.py:796-807 | once the generated id is stored, the next id's number is one higher |
| Decimal.PadRoundTrip | app.py:807 | zero-padding the rendered number and parsing it back gives the number |
| Statistics.TallyStep | app.py:944-954 | counting one more reservation of the day keeps every counter equal to the size of its class |
| Statistics.SummaryPartition | app.py:947-952 | visited, cancelled and waiting (any other status) add up to the total |
| Statistics.ComputeStatistics | app.py:930-954 | total, visited, cancelled and waiting count the day's reservations by status class, by_type counts them per category letter, and the three classes add up to the total |
| Lanes.Sort | script.js:250-261 | the sorted lane is a permutation of its input in which no entry is preceded by one the comparator puts after it, and entries of equal rank keep their input order, as the stable `Array.prototype.sort` keeps them |
| Lanes.TiesAreSameRank | script.js:250-261 | where the comparator is consistent (the normal lane, or two timed entries) it answers 0 exactly for entries of equal rank: same priority and creation time, or same time |
| Lanes.Classify | script.js:226-261 | each queue is a sorted permutation of the entries classified into it |
| Lanes.NormalLaneMembership | script.js:226-247 | an entry is in the normal lane iff it is not absent and is an A/C entry on 11/1 or a B/D entry on 11/2 |
| Lanes.TimeLaneMembership | script.js:226-247 | an entry is in the time-slot lane iff it is not absent and is an X entry on 11/1 or a Y entry on 11/2 |
| Lanes.NormalLaneOrder | script.js:250-255 | every priority entry precedes every non-priority one, and equal-priority entries are in ascending creation time |
| Lanes.TimeLaneOrder | script.js:258-261 | when every entry of the time-slot lane carries a time, the lane is in ascending time order |
| Staging.Add | script.js:344-357 | an already staged id or an overflowing party leaves the list unchanged; otherwise the entry is appended; the total stays at most 4 and the ids stay distinct |
| Staging.Remove | script.js:402-403 | the result holds exactly the entries with another id |
| Staging.RemoveConcat | script.js:403 | removal works piecewise, so the survivors keep their order |
| Staging.RemoveUndoesAdd | script.js:344-403 | removing an id just added restores the list |
| Staging.RemoveLowersTotal | script.js:403-411 | with distinct ids, removing a staged id lowers the total and the displayed count by its party size |
| Staging.DisplayAfterAdd | script.js:357-359 | a successful add raises the displayed count by the party size and enables the accept button |
| Staging.ApplyKeepsInvariant | script.js:344-403 | a single add or remove keeps the total at most 4, the ids distinct and the party sizes non-negative |
| Staging.ReplayKeepsInvariant | script.js:344-403 | any sequence of adds and removes with non-negative party sizes keeps the total at most 4 and the ids distinct |
| Elapsed.TruncRem | script.js:46 | JavaScript's remainder lies strictly between -m and m, takes the sign of the dividend, and agrees with the mathematical one for non-negative dividends |
| Elapsed.Seconds | script.js:46 | the seconds field lies in [-60, 60) and is non-negative for a non-negative duration |
| Elapsed.LabelOfNonNegative | script.js:41-53 | for a non-negative duration the label shows the minutes only when positive, and both fields without a sign |
| Elapsed.SplitsWholeSeconds | script.js:45-46 | for a non-negative duration, minutes times 60 plus the seconds field is the whole seconds, and the seconds field is that modulo 60 |
| Elapsed.ReadBack | script.js:41-53 | the label of a non-negative duration ("M分S秒" or "S秒") reads back as its whole seconds |
| Absence.RowOf | script.js:468-469 | the card is flagged iff the absence has a timestamp and at least 15 whole minutes, that is 900000 ms, have passed |
| Absence.AbsentList | script.js:459-493 | the cards are exactly those of the absent entries, and an id is sent for deletion iff its card is flagged |
| Absence.DeletedIffOverdue | script.js:459-493 | a reservation is deleted iff it is absent and its mark is at least fifteen minutes old |
| Reception.CheckAutoStop | script.js:862-870 | a stop answer turns reception off in a loaded cache; the cache is otherwise unchanged, never switched on, and its other flags are kept |
| Reception.PollNeverEnables | script.js:862-870 | over any run of polls reception ends on only if it started on and no poll said stop |

## Left out

- **HTTP and authentication.** Flask routing, CORS, JSON replies and HTTP status codes are out; an error reply is `None`. JWT login and `require_auth`, and the client's login, logout and localStorage, are out too. They are plumbing and a foreign library.
- **Persistence.** Firestore initialisation and I/O are out. Each multi-document write sequence is modelled as if it applied completely. The source's writes are not atomic, and a failure part-way leaves a partial update with no rollback; that is not modelled.
- **Timestamps and time sources.** The `created_at`, `called_at`, `completed_at` and `absent_at` stamps written by the server are omitted. Times are integers, so `datetime.now`, `strptime` and `new Date` are out: VIP slots and `now` are minutes on one clock, and client instants are milliseconds.
- **Floating point.** The client divides in floating point. The model uses exact integer floor division, which differs only where rounding error would cross an integer.
- **The `except` fallbacks.** The fallbacks that return 1 (`assign_to_group`, `assign_vip_to_group`, the allocators) or `"<type>0001"` (`generate_reservation_id`) are out. They are reached only through store failures.
- **Non-numeric group ids.** The allocators and placements skip them. In `get_next_group` they raise. Group keys are integers in the model.
- **Python `int()`.** It is modelled on plain ASCII digit strings; signs, whitespace, underscores and non-ASCII digits are not accepted.
- **`create_reservation`** (app.py:750-790). It is a request handler around `generate_reservation_id` and `assign_to_group`, both of which are modelled; its field validation is not.
- **Read-only endpoints and stubs.** `get_calling_group`, `get_reservations`, the settings endpoints, `dashboard` (a constant stub) and `by_hour` (always empty) are out.
- **Client UI and plumbing.** The DOM, drag and drop, `renderCallGroup`, `createReservationCard`, the charts, timers (`setInterval`, `startAbsentCheck`), `apiCall`, `formatDateTime`/`formatTime` and `acceptGroup` are out.
- **The auto-stop decision.** The server side of `/api/check-auto-stop` is not part of this model. Only the client's cache update is modelled.
- Lanes.Sort: the equal-rank clause describes `Array.prototype.sort` only where the comparator is consistent (see the next line); in a time-slot lane with an untimed entry it is a property of the model's sort alone.
- Lanes.TimeLaneOrder: stated only for a time-slot lane whose entries all carry a time, which every X/Y reservation the server creates does. The source's comparator answers "equal" when either entry lacks a time, which is not a consistent order. With an untimed entry present the engine's whole order is implementation-defined, and even timed entries can come out of order: a binary insertion sort of `[10:00, untimed, 09:00]` compares each against the untimed entry and keeps 10:00 first. The model's sort is one admissible outcome in that case, not a promise about script.js.
- **Lane typing.** Entries are typed: `priority` is a boolean, `createdAt` an integer, `time` a string (`""` when missing). Non-boolean priority values, which the source's `!==` test would treat differently, are not modelled.
- **Time comparison.** `localeCompare` is modelled as code-point order, which agrees with it on the "HH:MM" digit strings it compares.
- **Staging counts.** Party sizes are integers; the `NaN` that `parseInt` can yield on a bad drag payload is not modelled.
- Absence.AbsentList: `now` is one instant for the whole pass, whereas the source reads the clock once per card.
- Schedule.GetNextGroup: the reservation stream `ids` is an input. The model does not require it to list each stored reservation exactly once, as the store's stream does; a missing id is simply not scanned.
- Schedule.PriorityGroupComesFirst: stated for a day whose group documents are all named by non-negative numbers. With a document named "-1" the new priority group gets number 0, which `if next_group_num:` treats as absent, and the walk answers instead.
- Schedule.GetNextGroup: the walk `order` is an input. The model does not derive it from the group numbers, so it does not prove that it is the lexicographic order of their decimal names.

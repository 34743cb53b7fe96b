/** The call lifecycle of app.py: calling and resetting a group, marking a
    member visited, absent or cancelled, completing a group whose members are
    all processed (`check_and_complete_group`), and refilling the seat an
    absent member leaves in the calling group (`fill_vacant_slot`). */
module Lifecycle {
  import opened Wrappers
  import opened Snapshot
  import Strings
  import FiniteSets
  import Placement

  // ---------------------------------------------------------------------------
  // Group status writes

  /** `call_group`: an unconditional write of status 1. `None` is an error
      reply: group number 0 (falsy), or no such group document. Nothing stops a
      second group from being called while another is calling. */
  function CallGroup(store: Store, date: string, n: int): (r: Option<Store>)
    ensures r.None? <==> n == 0 || n !in store.Groups(CollectionFor(date))
    ensures r.Some? ==>
      var c := CollectionFor(date);
      && r.value.reservations == store.reservations
      && Placement.OnlyChanged(store.Groups(c), r.value.Groups(c), n)
      && r.value.Groups(c)[n] == store.Groups(c)[n].(status := GroupCalling)
      && forall d :: d != c ==> r.value.Groups(d) == store.Groups(d)
  {
    var c := CollectionFor(date);
    if n == 0 || n !in store.Groups(c) then None
    else Some(store.WithGroups(c, Placement.SetGroup(store.Groups(c), n, store.Groups(c)[n].(status := GroupCalling))))
  }

  /** `reset_group`: an unconditional write of status 0, with the same error
      replies as `CallGroup`. */
  function ResetGroup(store: Store, date: string, n: int): (r: Option<Store>)
    ensures r.None? <==> n == 0 || n !in store.Groups(CollectionFor(date))
    ensures r.Some? ==>
      var c := CollectionFor(date);
      && r.value.reservations == store.reservations
      && Placement.OnlyChanged(store.Groups(c), r.value.Groups(c), n)
      && r.value.Groups(c)[n] == store.Groups(c)[n].(status := GroupWaiting)
      && forall d :: d != c ==> r.value.Groups(d) == store.Groups(d)
  {
    var c := CollectionFor(date);
    if n == 0 || n !in store.Groups(c) then None
    else Some(store.WithGroups(c, Placement.SetGroup(store.Groups(c), n, store.Groups(c)[n].(status := GroupWaiting))))
  }

  /** Calling a waiting group and then resetting it restores the snapshot. */
  lemma CallThenResetRestores(store: Store, date: string, n: int)
    requires n != 0 && n in store.Groups(CollectionFor(date))
    requires store.Groups(CollectionFor(date))[n].status == GroupWaiting
    ensures CallGroup(store, date, n).Some?
    ensures ResetGroup(CallGroup(store, date, n).value, date, n) == Some(store)
  {
    var c := CollectionFor(date);
    var called := CallGroup(store, date, n).value;
    var back := ResetGroup(called, date, n).value;
    assert back.Groups(c) == store.Groups(c);
    match c
    case First => assert back == store;
    case Second => assert back == store;
  }

  /** The code has no single-caller guard: two groups of one day can be in
      status 1 at the same time. */
  lemma TwoGroupsCanBeCalling()
    ensures var g := Group(GroupWaiting, [], false);
      var store := Store(map[], map[5 := g, 6 := g], map[]);
      var once := CallGroup(store, Day1, 5);
      && once.Some?
      && var twice := CallGroup(once.value, Day1, 6);
      && twice.Some?
      && twice.value.first[5].status == GroupCalling
      && twice.value.first[6].status == GroupCalling
  {
  }

  // ---------------------------------------------------------------------------
  // Completion check

  /** The scan of `check_and_complete_group`: false as soon as a listed
      reservation that exists is still waiting. */
  function NoneWaiting(ids: seq<string>, res: map<string, Reservation>): (b: bool)
    ensures b <==> forall i :: 0 <= i < |ids| && ids[i] in res ==> res[ids[i]].status != Waiting
  {
    if |ids| == 0 then true
    else if ids[0] in res && res[ids[0]].status == Waiting then false
    else NoneWaiting(ids[1..], res)
  }

  /** The group document a reservation's `group` field names, looked up in the
      collection of the day its id prefix implies (an explicit `date` field is
      not consulted here). `None` when the reservation or group is missing or
      its group field is falsy. */
  function OwnerGroup(store: Store, id: string): (r: Option<(Collection, int)>)
    ensures r.Some? ==>
      && id in store.reservations
      && r.value.1 == store.reservations[id].group != 0
      && r.value.0 == CollectionFor(DefaultDay(id))
      && r.value.1 in store.Groups(r.value.0)
    ensures r.None? ==>
      || id !in store.reservations
      || store.reservations[id].group == 0
      || store.reservations[id].group !in store.Groups(CollectionFor(DefaultDay(id)))
  {
    if id !in store.reservations then None
    else
      var g := store.reservations[id].group;
      var c := CollectionFor(DefaultDay(id));
      if g == 0 || g !in store.Groups(c) then None else Some((c, g))
  }

  /** The owner of a reservation depends only on its id and its group field:
      rewriting its status, priority, count, slot or even its date does not
      move it to another group. */
  lemma OwnerGroupFollowsGroupField(store: Store, id: string, r: Reservation)
    requires id in store.reservations && r.group == store.reservations[id].group
    ensures OwnerGroup(store.(reservations := store.reservations[id := r]), id) == OwnerGroup(store, id)
  {
  }

  /** `check_and_complete_group`: the group of `id` becomes completed when it
      is calling and none of its existing members still waits. */
  function CheckAndCompleteGroup(store: Store, id: string): (s: Store)
    ensures s.reservations == store.reservations
    ensures forall d, m :: m in store.Groups(d) && store.Groups(d)[m].status != GroupCalling ==>
      m in s.Groups(d) && s.Groups(d)[m] == store.Groups(d)[m]
    ensures OwnerGroup(store, id).None? ==> s == store
    ensures OwnerGroup(store, id).Some? ==>
      var (c, g) := OwnerGroup(store, id).value;
      var group := store.Groups(c)[g];
      && Placement.OnlyChanged(store.Groups(c), s.Groups(c), g)
      && (forall d :: d != c ==> s.Groups(d) == store.Groups(d))
      && s.Groups(c)[g] == group.(status := s.Groups(c)[g].status)
      && (s.Groups(c)[g].status == GroupCompleted <==>
            group.status == GroupCompleted
            || (group.status == GroupCalling
                && forall i :: 0 <= i < |group.members| && group.members[i] in store.reservations ==>
                     store.reservations[group.members[i]].status != Waiting))
      && (s.Groups(c)[g].status != GroupCompleted ==> s.Groups(c)[g] == group)
  {
    match OwnerGroup(store, id)
    case None => store
    case Some((c, g)) =>
      var group := store.Groups(c)[g];
      if group.status == GroupCalling && NoneWaiting(group.members, store.reservations) then
        store.WithGroups(c, Placement.SetGroup(store.Groups(c), g, group.(status := GroupCompleted)))
      else store
  }

  /** Running the completion check twice is the same as running it once. */
  lemma CheckAndCompleteIdempotent(store: Store, id: string)
    ensures CheckAndCompleteGroup(CheckAndCompleteGroup(store, id), id) == CheckAndCompleteGroup(store, id)
  {
    var once := CheckAndCompleteGroup(store, id);
    assert OwnerGroup(once, id) == OwnerGroup(store, id);
    match OwnerGroup(store, id)
    case None =>
    case Some((c, g)) =>
      var twice := CheckAndCompleteGroup(once, id);
      assert twice.Groups(c) == once.Groups(c);
      match c
      case First => assert twice == once;
      case Second => assert twice == once;
  }

  // ---------------------------------------------------------------------------
  // Member outcomes

  /** `mark_visit`: status 1, priority cleared, then the completion check.
      `None` is the error reply when the reservation document is missing. */
  function MarkVisit(store: Store, id: string): (r: Option<Store>)
    ensures r.None? <==> id !in store.reservations
    ensures r.Some? ==>
      && r.value.reservations == store.reservations[id := store.reservations[id].(status := Visited, priority := false)]
      && r.value == CheckAndCompleteGroup(store.(reservations := r.value.reservations), id)
    ensures r.Some? ==> VisitEffect(store, id, r.value)
  {
    if id !in store.reservations then None
    else
      var visited := store.(reservations := store.reservations[id := store.reservations[id].(status := Visited, priority := false)]);
      Some(CheckAndCompleteGroup(visited, id))
  }

  /** What a visit may do to the store: the visited record becomes status 1
      without priority, no other record changes, no group appears or loses
      members, and the only possible status change is a calling group of the
      record's prefix day becoming completed. */
  ghost predicate VisitEffect(store: Store, id: string, after: Store)
    requires id in store.reservations
  {
    && id in after.reservations
    && after.reservations[id].status == Visited
    && !after.reservations[id].priority
    && after.reservations.Keys == store.reservations.Keys
    && (forall k :: k in store.reservations && k != id ==> after.reservations[k] == store.reservations[k])
    && (forall d :: after.Groups(d).Keys == store.Groups(d).Keys)
    && (forall d, m :: m in store.Groups(d) ==>
          && after.Groups(d)[m].members == store.Groups(d)[m].members
          && (after.Groups(d)[m] != store.Groups(d)[m] ==>
                && d == CollectionFor(DefaultDay(id))
                && store.Groups(d)[m].status == GroupCalling
                && after.Groups(d)[m] == store.Groups(d)[m].(status := GroupCompleted)))
  }

  /** Visiting the last waiting member of a calling group completes it. */
  lemma VisitingLastWaitingCompletes(store: Store, id: string)
    requires id in store.reservations
    requires OwnerGroup(store, id).Some?
    requires var (c, g) := OwnerGroup(store, id).value;
      var group := store.Groups(c)[g];
      && group.status == GroupCalling
      && forall i :: 0 <= i < |group.members| && group.members[i] in store.reservations && group.members[i] != id ==>
           store.reservations[group.members[i]].status != Waiting
    ensures MarkVisit(store, id).Some?
    ensures var (c, g) := OwnerGroup(store, id).value;
      MarkVisit(store, id).value.Groups(c)[g].status == GroupCompleted
  {
    var visited := store.(reservations := store.reservations[id := store.reservations[id].(status := Visited, priority := false)]);
    assert OwnerGroup(visited, id) == OwnerGroup(store, id);
  }

  /** `mark_cancel`: status 2, nothing else. */
  function MarkCancel(store: Store, id: string): (r: Option<Store>)
    ensures r.None? <==> id !in store.reservations
    ensures r.Some? ==> r.value == store.(reservations := store.reservations[id := store.reservations[id].(status := Cancelled)])
    ensures r.Some? ==> r.value.first == store.first && r.value.second == store.second
    ensures r.Some? ==>
      && r.value.reservations.Keys == store.reservations.Keys
      && r.value.reservations[id].status == Cancelled
      && r.value.reservations[id].group == store.reservations[id].group
      && forall k :: k in store.reservations && k != id ==> r.value.reservations[k] == store.reservations[k]
  {
    if id !in store.reservations then None
    else Some(store.(reservations := store.reservations[id := store.reservations[id].(status := Cancelled)]))
  }

  /** Unlike a visit, cancelling the last waiting member of a calling group
      does not complete it: the group stays calling with its list unchanged,
      although none of its members waits any more. */
  lemma CancelNeverCompletes(store: Store, id: string)
    requires OwnerGroup(store, id).Some?
    requires var (c, g) := OwnerGroup(store, id).value;
      var group := store.Groups(c)[g];
      && group.status == GroupCalling
      && forall i :: 0 <= i < |group.members| && group.members[i] in store.reservations && group.members[i] != id ==>
           store.reservations[group.members[i]].status != Waiting
    ensures MarkCancel(store, id).Some?
    ensures var (c, g) := OwnerGroup(store, id).value;
      var after := MarkCancel(store, id).value;
      && after.Groups(c)[g] == store.Groups(c)[g]
      && after.Groups(c)[g].status == GroupCalling
      && NoneWaiting(after.Groups(c)[g].members, after.reservations)
      && MarkVisit(store, id).value.Groups(c)[g].status == GroupCompleted
  {
    var (c, g) := OwnerGroup(store, id).value;
    var after := MarkCancel(store, id).value;
    var group := store.Groups(c)[g];
    VisitingLastWaitingCompletes(store, id);
    assert after.Groups(c) == store.Groups(c) by {
      match c
      case First =>
      case Second =>
    }
    assert forall i :: 0 <= i < |group.members| && group.members[i] in after.reservations ==>
      after.reservations[group.members[i]].status != Waiting;
  }

  /** The completion check looks for the group only in the collection of the
      id's prefix day. An X reservation dated the second day is grouped in the
      second collection, so visiting the only member of its calling group
      leaves that group calling. */
  lemma DatedVipVisitLeavesGroupCalling()
    ensures var r := Reservation(1, Waiting, false, 1, Day2, Some(600));
      var store := Store(map["X0001" := r], map[], map[1 := Group(GroupCalling, ["X0001"], false)]);
      && CollectionFor(DayOf("X0001", r)) == Second
      && OwnerGroup(store, "X0001").None?
      && MarkVisit(store, "X0001").Some?
      && MarkVisit(store, "X0001").value.reservations["X0001"].status == Visited
      && MarkVisit(store, "X0001").value.second[1].status == GroupCalling
  {
    var r := Reservation(1, Waiting, false, 1, Day2, Some(600));
    var store := Store(map["X0001" := r], map[], map[1 := Group(GroupCalling, ["X0001"], false)]);
    assert Kind("X0001") == 'X';
    assert DefaultDay("X0001") == Day1;
  }

  // ---------------------------------------------------------------------------
  // Refilling a vacated seat

  /** Python's sort key `(not priority, group, id)` of the refill candidates:
      priority entries first, then the lower group, then the smaller id. */
  predicate KeyBefore(res: map<string, Reservation>, a: string, b: string)
    requires a in res && b in res
  {
    var ra := res[a];
    var rb := res[b];
    if ra.priority != rb.priority then ra.priority
    else if ra.group != rb.group then ra.group < rb.group
    else Strings.Less(a, b)
  }

  lemma KeyBeforeIsStrictOrder(res: map<string, Reservation>)
    ensures forall a, b :: a in res && b in res && KeyBefore(res, a, b) ==> !KeyBefore(res, b, a)
    ensures forall a, b :: a in res && b in res && a != b ==> KeyBefore(res, a, b) || KeyBefore(res, b, a)
    ensures forall a, b, c :: a in res && b in res && c in res && KeyBefore(res, a, b) && KeyBefore(res, b, c) ==> KeyBefore(res, a, c)
  {
    forall a, b | a in res && b in res && KeyBefore(res, a, b)
      ensures !KeyBefore(res, b, a)
    {
      if res[a].priority == res[b].priority && res[a].group == res[b].group {
        Strings.LessAsymmetric(a, b);
      }
    }
    forall a, b | a in res && b in res && a != b
      ensures KeyBefore(res, a, b) || KeyBefore(res, b, a)
    {
      Strings.LessTotal(a, b);
    }
    forall a, b, c | a in res && b in res && c in res && KeyBefore(res, a, b) && KeyBefore(res, b, c)
      ensures KeyBefore(res, a, c)
    {
      if res[a].priority == res[b].priority == res[c].priority && res[a].group == res[b].group == res[c].group {
        Strings.LessTransitive(a, b, c);
      }
    }
  }

  /** `p` sorts first among `cands`. */
  predicate IsFirst(res: map<string, Reservation>, cands: set<string>, p: string)
    requires cands <= res.Keys
  {
    p in cands && forall o :: o in cands && o != p ==> KeyBefore(res, p, o)
  }

  lemma {:induction false} FirstExists(res: map<string, Reservation>, cands: set<string>)
    requires cands != {} && cands <= res.Keys
    ensures exists p :: IsFirst(res, cands, p)
  {
    KeyBeforeIsStrictOrder(res);
    var x := FiniteSets.Pick(cands);
    if cands - {x} == {} {
      assert forall o :: o in cands ==> o == x || o in cands - {x};
      assert IsFirst(res, cands, x);
    } else {
      FirstExists(res, cands - {x});
      var m :| IsFirst(res, cands - {x}, m);
      assert forall o :: o in cands ==> o == x || o in cands - {x};
      if KeyBefore(res, x, m) {
        assert IsFirst(res, cands, x);
      } else {
        assert IsFirst(res, cands, m);
      }
    }
  }

  /** `candidates.sort(...)[0]`. */
  function First(res: map<string, Reservation>, cands: set<string>): (p: string)
    requires cands != {} && cands <= res.Keys
    ensures p in cands
    ensures forall o :: o in cands && o != p ==> KeyBefore(res, p, o)
  {
    FirstExists(res, cands);
    KeyBeforeIsStrictOrder(res);
    var p :| IsFirst(res, cands, p); p
  }

  /** A reservation may take the vacated seat: same day, waiting, assigned to a
      group numbered after the calling group `g`, and no larger than the
      absent party. */
  predicate IsReplacement(res: map<string, Reservation>, id: string, date: string, g: int, absentCount: int)
    requires id in res
  {
    var r := res[id];
    DayOf(id, r) == date && r.status == Waiting && r.group != 0 && r.group > g && r.count <= absentCount
  }

  function Replacements(res: map<string, Reservation>, date: string, g: int, absentCount: int): (s: set<string>)
    ensures s <= res.Keys
    ensures forall id :: id in s <==> id in res && IsReplacement(res, id, date, g, absentCount)
  {
    set id | id in res && IsReplacement(res, id, date, g, absentCount)
  }

  /** The calling group an absent reservation leaves a seat in. */
  function CallingOwner(store: Store, id: string): (r: Option<(Collection, int)>)
    ensures r.Some? <==>
      && OwnerGroup(store, id).Some?
      && store.Groups(OwnerGroup(store, id).value.0)[OwnerGroup(store, id).value.1].status == GroupCalling
    ensures r.Some? ==> r == OwnerGroup(store, id)
  {
    match OwnerGroup(store, id)
    case None => None
    case Some((c, g)) => if store.Groups(c)[g].status == GroupCalling then Some((c, g)) else None
  }

  /** The reservation `fill_vacant_slot` moves into the calling group of
      `absentId`, if any: the first candidate by (not priority, group, id). */
  function Replacement(store: Store, absentId: string): (r: Option<string>)
    ensures r.Some? ==> CallingOwner(store, absentId).Some?
    ensures r.Some? ==>
      var g := CallingOwner(store, absentId).value.1;
      var cands := Replacements(store.reservations, DefaultDay(absentId), g, store.reservations[absentId].count);
      && r.value in cands
      && forall o :: o in cands && o != r.value ==> KeyBefore(store.reservations, r.value, o)
    ensures r.None? && CallingOwner(store, absentId).Some? ==>
      Replacements(store.reservations, DefaultDay(absentId), CallingOwner(store, absentId).value.1,
        store.reservations[absentId].count) == {}
  {
    match CallingOwner(store, absentId)
    case None => None
    case Some((c, g)) =>
      var cands := Replacements(store.reservations, DefaultDay(absentId), g, store.reservations[absentId].count);
      if cands == {} then None else Some(First(store.reservations, cands))
  }

  /** Python's `list.remove`: drops the first occurrence, if there is one. */
  function RemoveFirst(xs: seq<string>, x: string): (r: seq<string>)
    ensures x !in xs ==> r == xs
    ensures x in xs ==> |r| == |xs| - 1
  {
    if |xs| == 0 then []
    else if xs[0] == x then xs[1..]
    else [xs[0]] + RemoveFirst(xs[1..], x)
  }

  /** `RemoveFirst` cuts out exactly the first occurrence and keeps the order
      of everything else. */
  lemma {:induction false} RemoveFirstCutsFirstOccurrence(xs: seq<string>, x: string, i: nat)
    requires i < |xs| && xs[i] == x && x !in xs[..i]
    ensures RemoveFirst(xs, x) == xs[..i] + xs[i + 1..]
  {
    if i > 0 {
      assert xs[0] in xs[..i];
      assert xs[1..][..i - 1] == xs[1..i];
      assert forall k :: 1 <= k < i ==> xs[1..i][k - 1] == xs[..i][k];
      RemoveFirstCutsFirstOccurrence(xs[1..], x, i - 1);
      assert xs[..i] == [xs[0]] + xs[1..][..i - 1];
      assert xs[1..][i..] == xs[i + 1..];
    }
  }

  /** `fill_vacant_slot(absentId)`, run after the absent member was marked:
      when its group is calling, the first replacement candidate joins that
      group (its priority cleared, removed from its old group's list, appended
      to the calling list unless already there); with no candidate the
      completion check runs instead. */
  function FillVacantSlot(store: Store, absentId: string): (s: Store)
    ensures CallingOwner(store, absentId).None? ==> s == store
    ensures CallingOwner(store, absentId).Some? && Replacement(store, absentId).None? ==>
      s == CheckAndCompleteGroup(store, absentId)
    ensures Replacement(store, absentId).Some? ==>
      var (c, g) := CallingOwner(store, absentId).value;
      var pick := Replacement(store, absentId).value;
      var r := store.reservations[pick];
      var groups := store.Groups(c);
      && s.reservations == store.reservations[pick := r.(group := g, priority := false)]
      && (forall d :: d != c ==> s.Groups(d) == store.Groups(d))
      && s.Groups(c).Keys == groups.Keys
      && (forall m :: m in groups && m != g && m != r.group ==> s.Groups(c)[m] == groups[m])
      && (r.group in groups ==> s.Groups(c)[r.group] == groups[r.group].(members := RemoveFirst(groups[r.group].members, pick)))
      && s.Groups(c)[g].status == groups[g].status
      && s.Groups(c)[g].members == (if pick in groups[g].members then groups[g].members else groups[g].members + [pick])
  {
    match CallingOwner(store, absentId)
    case None => store
    case Some((c, g)) =>
      match Replacement(store, absentId)
      case None => CheckAndCompleteGroup(store, absentId)
      case Some(pick) =>
        var r := store.reservations[pick];
        var groups := store.Groups(c);
        var calling := groups[g];
        var emptied := if r.group in groups then groups[r.group := groups[r.group].(members := RemoveFirst(groups[r.group].members, pick))] else groups;
        var filled := if pick in calling.members then emptied else emptied[g := calling.(members := calling.members + [pick])];
        store.WithGroups(c, filled).(reservations := store.reservations[pick := r.(group := g, priority := false)])
  }

  /** A listed id appears in the calling list exactly once after a refill,
      and a list without repeats stays without repeats. */
  lemma FillKeepsCallingListDistinct(store: Store, absentId: string)
    requires Replacement(store, absentId).Some?
    requires var (c, g) := CallingOwner(store, absentId).value;
      Distinct(store.Groups(c)[g].members)
    ensures var (c, g) := CallingOwner(store, absentId).value;
      var members := FillVacantSlot(store, absentId).Groups(c)[g].members;
      && Distinct(members)
      && Replacement(store, absentId).value in members
  {
  }

  /** `mark_absent`: status 3 and the priority flag (the `absent_at` stamp is
      not modelled), then the seat refill. `None` is the error reply when the
      reservation document is missing. */
  function MarkAbsent(store: Store, id: string): (r: Option<Store>)
    ensures r.None? <==> id !in store.reservations
    ensures r.Some? ==>
      var marked := store.(reservations := store.reservations[id := store.reservations[id].(status := Absent, priority := true)]);
      && r.value == FillVacantSlot(marked, id)
      && r.value.reservations[id] == marked.reservations[id]
  {
    if id !in store.reservations then None
    else
      var marked := store.(reservations := store.reservations[id := store.reservations[id].(status := Absent, priority := true)]);
      var s := FillVacantSlot(marked, id);
      assert Replacement(marked, id).Some? ==> Replacement(marked, id).value != id;
      Some(s)
  }

  /** Marking a listed member absent takes its party out of the waiting count,
      or more if it is listed more than once. */
  lemma {:induction false} AbsentLeavesWaitingCount(members: seq<string>, res: map<string, Reservation>, id: string)
    requires id in res && res[id].status == Waiting && res[id].count >= 0
    ensures var marked := res[id := res[id].(status := Absent, priority := true)];
      WaitingHeadcount(members, marked) <= WaitingHeadcount(members, res) - (if id in members then res[id].count else 0)
  {
    if |members| > 0 {
      var pre := members[..|members| - 1];
      AbsentLeavesWaitingCount(pre, res, id);
      assert members == pre + [members[|members| - 1]];
    }
  }

  /** When a waiting member of the calling group goes absent, the group's
      waiting headcount does not grow: the refill moves in a party no larger
      than the one that left. */
  lemma MarkAbsentKeepsWaitingHeadcount(store: Store, id: string)
    requires id in store.reservations
    requires store.reservations[id].status == Waiting && store.reservations[id].count >= 0
    requires CallingOwner(store, id).Some?
    requires var (c, g) := CallingOwner(store, id).value;
      id in store.Groups(c)[g].members
    ensures MarkAbsent(store, id).Some?
    ensures var (c, g) := CallingOwner(store, id).value;
      var s := MarkAbsent(store, id).value;
      g in s.Groups(c)
      && WaitingHeadcount(s.Groups(c)[g].members, s.reservations)
           <= WaitingHeadcount(store.Groups(c)[g].members, store.reservations)
  {
    var (c, g) := CallingOwner(store, id).value;
    var res := store.reservations;
    var marked := store.(reservations := res[id := res[id].(status := Absent, priority := true)]);
    var members := store.Groups(c)[g].members;
    assert OwnerGroup(marked, id) == OwnerGroup(store, id);
    assert CallingOwner(marked, id) == Some((c, g));
    AbsentLeavesWaitingCount(members, res, id);
    var s := FillVacantSlot(marked, id);
    match Replacement(marked, id)
    case None =>
    case Some(pick) =>
      var moved := marked.reservations[pick := marked.reservations[pick].(group := g, priority := false)];
      assert s.reservations == moved;
      WaitingHeadcountDependsOnCountAndStatus(members, moved, marked.reservations);
      WaitingHeadcountAppend(members, pick, moved);
  }
}

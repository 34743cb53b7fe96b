/** First-fit placement of a new reservation into a waiting group
    (app.py `assign_to_group` and `assign_vip_to_group`). */
module Placement {
  import opened Wrappers
  import opened Snapshot
  import FiniteSets
  import Allocation

  /** The group can take `count` more people without exceeding the capacity. */
  predicate Fits(g: Group, res: map<string, Reservation>, count: int) {
    Headcount(g.members, res) + count <= Capacity
  }

  /** Odd groups serve pre-booked reservations, even groups walk-ins. */
  predicate ParityMatches(n: int, isReserved: bool) {
    (n % 2 == 1) == isReserved
  }

  /** Numbers of the waiting groups a placement may consider: all of them, or
      only those of one parity when `parity` is given. */
  function Eligible(groups: map<int, Group>, parity: Option<bool>): (s: set<int>)
    ensures forall n :: n in s <==>
      n in groups && groups[n].status == GroupWaiting
      && (parity.Some? ==> ParityMatches(n, parity.value))
  {
    set n | n in groups && groups[n].status == GroupWaiting
      && (parity.None? || ParityMatches(n, parity.value))
  }

  /** The parity filter splits the waiting groups in two: every waiting group
      is a candidate for exactly one of pre-booked and walk-in placement, and
      the unfiltered candidates are all waiting groups. */
  lemma ParityPartitionsEligible(groups: map<int, Group>)
    ensures Eligible(groups, Some(true)) !! Eligible(groups, Some(false))
    ensures Eligible(groups, Some(true)) + Eligible(groups, Some(false)) == Eligible(groups, None)
    ensures forall n :: n in Eligible(groups, None) <==> n in groups && groups[n].status == GroupWaiting
  {
  }

  /** Walks `nums` in order and stops at the first group that fits. */
  function FirstFitting(nums: seq<int>, groups: map<int, Group>, res: map<string, Reservation>, count: int): (r: Option<nat>)
    requires forall i :: 0 <= i < |nums| ==> nums[i] in groups
    ensures r.None? <==> forall i :: 0 <= i < |nums| ==> !Fits(groups[nums[i]], res, count)
    ensures r.Some? ==> r.value < |nums| && Fits(groups[nums[r.value]], res, count)
    ensures r.Some? ==> forall j :: 0 <= j < r.value ==> !Fits(groups[nums[j]], res, count)
  {
    if |nums| == 0 then None
    else if Fits(groups[nums[0]], res, count) then Some(0)
    else match FirstFitting(nums[1..], groups, res, count)
      case None => None
      case Some(i) => Some(i + 1)
  }

  /** The lowest-numbered eligible group with room for `count` people, if any:
      the sort-by-number-then-scan of the source. */
  function FirstFit(groups: map<int, Group>, res: map<string, Reservation>, count: int, parity: Option<bool>): (r: Option<int>)
    ensures r.Some? ==> r.value in Eligible(groups, parity) && Fits(groups[r.value], res, count)
    ensures r.Some? ==> forall m :: m in Eligible(groups, parity) && Fits(groups[m], res, count) ==> r.value <= m
    ensures r.None? ==> forall m :: m in Eligible(groups, parity) ==> !Fits(groups[m], res, count)
  {
    var eligible := Eligible(groups, parity);
    var nums := FiniteSets.Ascending(eligible);
    var found := FirstFitting(nums, groups, res, count);
    ScanFindsLowest(nums, eligible, groups, res, count, found);
    if found.Some? then Some(nums[found.value]) else None
  }

  /** On an ascending enumeration, the first fitting position holds the lowest
      fitting number. */
  lemma ScanFindsLowest(nums: seq<int>, eligible: set<int>, groups: map<int, Group>, res: map<string, Reservation>, count: int, found: Option<nat>)
    requires FiniteSets.StrictlyAscending(nums)
    requires forall x :: x in eligible <==> x in nums
    requires forall i :: 0 <= i < |nums| ==> nums[i] in groups
    requires found == FirstFitting(nums, groups, res, count)
    ensures found.Some? ==> found.value < |nums| && nums[found.value] in eligible
    ensures found.Some? ==> forall m :: m in eligible && Fits(groups[m], res, count) ==> nums[found.value] <= m
    ensures found.None? ==> forall m :: m in eligible ==> !Fits(groups[m], res, count)
  {
    forall m | m in eligible
      ensures found.None? ==> !Fits(groups[m], res, count)
      ensures found.Some? && Fits(groups[m], res, count) ==> nums[found.value] <= m
    {
      var j :| 0 <= j < |nums| && nums[j] == m;
      if found.Some? && Fits(groups[m], res, count) {
        assert found.value <= j;
      }
    }
  }

  /** `after` differs from `before` at most at key `n`, which it holds. */
  ghost predicate OnlyChanged(before: map<int, Group>, after: map<int, Group>, n: int) {
    && after.Keys == before.Keys + {n}
    && forall m :: m in before && m != n ==> after[m] == before[m]
  }

  /** Writing one group document changes only that document. */
  function SetGroup(groups: map<int, Group>, n: int, g: Group): (r: map<int, Group>)
    ensures OnlyChanged(groups, r, n) && r[n] == g
  {
    groups[n := g]
  }

  /** Outcome of a placement: the chosen group number and the new collection. */
  datatype Placed = Placed(number: int, groups: map<int, Group>)

  /** Whether `assign_to_group` treats a category as pre-booked. */
  predicate IsReservedKind(kind: string) {
    kind == "A" || kind == "B"
  }

  /** The id joined group `n`, the lowest eligible group with room. */
  ghost predicate JoinedLowest(groups: map<int, Group>, after: map<int, Group>, res: map<string, Reservation>, n: int, id: string, count: int, parity: Option<bool>) {
    && n in Eligible(groups, parity)
    && Fits(groups[n], res, count)
    && n in after
    && after[n] == groups[n].(members := groups[n].members + [id])
    && forall m :: m in Eligible(groups, parity) && Fits(groups[m], res, count) ==> n <= m
  }

  /** No eligible group had room, so the id opened the fresh group `n`. */
  ghost predicate OpenedFresh(groups: map<int, Group>, after: map<int, Group>, res: map<string, Reservation>, n: int, id: string, count: int, parity: Option<bool>) {
    && n in after
    && after[n] == Group(GroupWaiting, [id], false)
    && (forall m :: m in Eligible(groups, parity) ==> !Fits(groups[m], res, count))
    && (forall m :: m in groups ==> m < n)
  }

  /** `assign_to_group`: append the id to the lowest-numbered waiting group of
      the right parity that has room, or open a fresh group of that parity. */
  function AssignToGroup(groups: map<int, Group>, res: map<string, Reservation>, id: string, count: int, kind: string): (p: Placed)
    ensures ParityMatches(p.number, IsReservedKind(kind))
    ensures OnlyChanged(groups, p.groups, p.number)
    ensures p.number in groups ==> JoinedLowest(groups, p.groups, res, p.number, id, count, Some(IsReservedKind(kind)))
    ensures p.number !in groups ==> OpenedFresh(groups, p.groups, res, p.number, id, count, Some(IsReservedKind(kind)))
    ensures p.number !in groups ==> p.number == Allocation.NextForKind(groups.Keys, IsReservedKind(kind))
  {
    var reserved := IsReservedKind(kind);
    match FirstFit(groups, res, count, Some(reserved))
    case Some(n) =>
      Placed(n, SetGroup(groups, n, groups[n].(members := groups[n].members + [id])))
    case None =>
      var n := Allocation.NextForKind(groups.Keys, reserved);
      Placed(n, SetGroup(groups, n, Group(GroupWaiting, [id], false)))
  }

  /** `assign_vip_to_group`: first fit over all waiting groups regardless of
      parity, else a fresh group holding only the VIP; the reservation's
      `group` field records the choice. `None` is the failed write when the
      reservation document does not exist. */
  function AssignVipToGroup(store: Store, c: Collection, id: string, count: int): (r: Option<(int, Store)>)
    ensures r.None? <==> id !in store.reservations
    ensures r.Some? ==>
      && id in store.reservations
      && r.value.1.reservations == store.reservations[id := store.reservations[id].(group := r.value.0)]
    ensures r.Some? ==> forall d :: d != c ==> r.value.1.Groups(d) == store.Groups(d)
    ensures r.Some? ==> OnlyChanged(store.Groups(c), r.value.1.Groups(c), r.value.0)
    ensures r.Some? && r.value.0 in store.Groups(c) ==>
      JoinedLowest(store.Groups(c), r.value.1.Groups(c), store.reservations, r.value.0, id, count, None)
    ensures r.Some? && r.value.0 !in store.Groups(c) ==>
      OpenedFresh(store.Groups(c), r.value.1.Groups(c), store.reservations, r.value.0, id, count, None)
      && r.value.0 == Allocation.NextAvailable(store.Groups(c).Keys)
      && (store.Groups(c) == map[] ==> r.value.0 == 1)
  {
    if id !in store.reservations then None
    else
      var groups := store.Groups(c);
      var (n, gs) := match FirstFit(groups, store.reservations, count, None)
        case Some(n) => (n, SetGroup(groups, n, groups[n].(members := groups[n].members + [id])))
        case None =>
          var n := Allocation.NextAvailable(groups.Keys);
          (n, SetGroup(groups, n, Group(GroupWaiting, [id], false)));
      var s := store.WithGroups(c, gs);
      Some((n, s.(reservations := s.reservations[id := s.reservations[id].(group := n)])))
  }

  /** Once the new reservation document is written with its count, the group
      that received it holds at most `Capacity` people, provided the party
      itself is not larger than a group. */
  lemma AssignRespectsCapacity(groups: map<int, Group>, res: map<string, Reservation>, id: string, kind: string, rec: Reservation)
    requires id !in res
    requires forall n :: n in groups ==> id !in groups[n].members
    requires rec.count <= Capacity
    ensures var p := AssignToGroup(groups, res, id, rec.count, kind);
      Headcount(p.groups[p.number].members, res[id := rec]) <= Capacity
  {
    var p := AssignToGroup(groups, res, id, rec.count, kind);
    var res' := res[id := rec];
    if p.number in groups {
      var old_members := groups[p.number].members;
      HeadcountUnlisted(old_members, res, id, rec);
      HeadcountAppend(old_members, id, res');
    } else {
      HeadcountAppend([], id, res');
      assert [] + [id] == [id];
    }
  }
}

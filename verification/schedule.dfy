/** app.py `get_next_group`: ready VIP reservations are first placed into
    groups, then waiting priority reservations are packed into a fresh priority
    group, and otherwise the first waiting group (in document-name order) with
    a waiting member is offered.

    The reservation stream order `ids` and the group walk order `order` are
    inputs: the store's document order is not modelled. */
module Schedule {
  import opened Wrappers
  import opened Snapshot
  import Placement
  import PriorityGroups

  /** A VIP (X/Y) reservation of `date`, still waiting and not yet grouped,
      whose slot starts at most five minutes after `now` (minutes). */
  predicate VipReady(id: string, r: Reservation, date: string, now: int) {
    && Kind(id) in {'X', 'Y'}
    && r.date == date
    && r.status == Waiting
    && r.time.Some?
    && now >= r.time.value - 5
    && r.group == 0
  }

  /** The ready VIPs, in stream order. */
  function ReadyVips(res: map<string, Reservation>, ids: seq<string>, date: string, now: int): (vs: seq<string>)
    ensures forall v :: v in vs <==> v in ids && v in res && VipReady(v, res[v], date, now)
  {
    if |ids| == 0 then []
    else
      var rest := ReadyVips(res, ids[1..], date, now);
      assert forall v :: v in ids <==> v == ids[0] || v in ids[1..];
      if ids[0] in res && VipReady(ids[0], res[ids[0]], date, now) then [ids[0]] + rest else rest
  }

  /** The reservation is recorded in a group of `c` that lists it. */
  ghost predicate Listed(store: Store, c: Collection, id: string) {
    && id in store.reservations
    && store.reservations[id].group in store.Groups(c)
    && id in store.Groups(c)[store.reservations[id].group].members
  }

  /** `after` is `before` with only `group` fields rewritten. */
  ghost predicate OnlyRegrouped(before: map<string, Reservation>, after: map<string, Reservation>) {
    && after.Keys == before.Keys
    && forall k :: k in before ==> after[k] == before[k].(group := after[k].group)
  }

  /** Every member list of `before` is a prefix of its list in `after`, and no
      group disappears. */
  ghost predicate GroupsGrow(before: map<int, Group>, after: map<int, Group>) {
    && before.Keys <= after.Keys
    && forall n :: n in before ==> before[n].members <= after[n].members
  }

  /** One `assign_vip_to_group` call keeps the other VIPs listed. */
  lemma AssignVipKeepsListed(store: Store, c: Collection, id: string, count: int, other: string)
    requires id in store.reservations
    requires other != id && Listed(store, c, other)
    ensures Listed(Placement.AssignVipToGroup(store, c, id, count).value.1, c, other)
  {
    var r := Placement.AssignVipToGroup(store, c, id, count).value;
    var g := store.reservations[other].group;
    if g == r.0 && g in store.Groups(c) {
      assert store.Groups(c)[g].members <= r.1.Groups(c)[g].members;
    }
  }

  lemma RegroupedTransitive(a: map<string, Reservation>, b: map<string, Reservation>, c: map<string, Reservation>)
    requires OnlyRegrouped(a, b) && OnlyRegrouped(b, c)
    ensures OnlyRegrouped(a, c)
  {
  }

  lemma GrowTransitive(a: map<int, Group>, b: map<int, Group>, c: map<int, Group>)
    requires GroupsGrow(a, b) && GroupsGrow(b, c)
    ensures GroupsGrow(a, c)
  {
  }

  /** One VIP placement rewrites one `group` field and grows one collection. */
  lemma AssignVipStep(store: Store, c: Collection, id: string, count: int)
    requires id in store.reservations
    ensures var next := Placement.AssignVipToGroup(store, c, id, count).value.1;
      && OnlyRegrouped(store.reservations, next.reservations)
      && (forall d :: d != c ==> next.Groups(d) == store.Groups(d))
      && GroupsGrow(store.Groups(c), next.Groups(c))
  {
    var r := Placement.AssignVipToGroup(store, c, id, count).value;
    RegroupedOne(store.reservations, id, r.0);
    if r.0 in store.Groups(c) {
      var before := store.Groups(c)[r.0].members;
      assert r.1.Groups(c)[r.0].members == before + [id];
      assert before <= before + [id];
    }
    GrowsAtOne(store.Groups(c), r.1.Groups(c), r.0);
  }

  lemma RegroupedOne(before: map<string, Reservation>, id: string, g: int)
    requires id in before
    ensures OnlyRegrouped(before, before[id := before[id].(group := g)])
  {
  }

  /** A collection where only group `n` was written, and that one only by
      extending its member list, has grown. */
  lemma GrowsAtOne(before: map<int, Group>, after: map<int, Group>, n: int)
    requires Placement.OnlyChanged(before, after, n)
    requires n in before ==> before[n].members <= after[n].members
    ensures GroupsGrow(before, after)
  {
  }

  /** A VIP placement hands out only positive numbers when every existing
      number is non-negative. */
  lemma AssignVipKeepsNumbersNonNegative(store: Store, c: Collection, id: string, count: int)
    requires id in store.reservations
    ensures NonNegativeNumbers(store.Groups(c)) ==>
      NonNegativeNumbers(Placement.AssignVipToGroup(store, c, id, count).value.1.Groups(c))
  {
    var r := Placement.AssignVipToGroup(store, c, id, count).value;
    var before := store.Groups(c);
    if NonNegativeNumbers(before) {
      if r.0 !in before && before != map[] {
        var e :| e in before.Keys;
        assert e < r.0;
      }
      NonNegativeAfterOne(before, r.1.Groups(c), r.0);
    }
  }

  lemma NonNegativeAfterOne(before: map<int, Group>, after: map<int, Group>, n: int)
    requires Placement.OnlyChanged(before, after, n)
    requires NonNegativeNumbers(before) && n >= 0
    ensures NonNegativeNumbers(after)
  {
  }

  /** Places the ready VIPs one after another, with the counts read before any
      placement. A VIP whose document vanished is skipped. */
  function AssignVips(store: Store, c: Collection, vips: seq<string>, counts: map<string, Reservation>): (s: Store)
    requires forall i :: 0 <= i < |vips| ==> vips[i] in counts
    ensures OnlyRegrouped(store.reservations, s.reservations)
    ensures forall d :: d != c ==> s.Groups(d) == store.Groups(d)
    ensures GroupsGrow(store.Groups(c), s.Groups(c))
    ensures NonNegativeNumbers(store.Groups(c)) ==> NonNegativeNumbers(s.Groups(c))
    decreases |vips|
  {
    if |vips| == 0 then store
    else
      match Placement.AssignVipToGroup(store, c, vips[0], counts[vips[0]].count)
      case None => AssignVips(store, c, vips[1..], counts)
      case Some((n, next)) =>
        var s := AssignVips(next, c, vips[1..], counts);
        AssignVipStep(store, c, vips[0], counts[vips[0]].count);
        AssignVipKeepsNumbersNonNegative(store, c, vips[0], counts[vips[0]].count);
        RegroupedTransitive(store.reservations, next.reservations, s.reservations);
        GrowTransitive(store.Groups(c), next.Groups(c), s.Groups(c));
        s
  }

  /** After the VIP pass every VIP whose document exists sits in a group of
      the day's collection that lists it. */
  lemma AssignVipsListsEveryVip(store: Store, c: Collection, vips: seq<string>, counts: map<string, Reservation>)
    requires forall i :: 0 <= i < |vips| ==> vips[i] in counts
    ensures forall v :: v in vips && v in store.reservations ==> Listed(AssignVips(store, c, vips, counts), c, v)
  {
    forall v | v in vips && v in store.reservations
      ensures Listed(AssignVips(store, c, vips, counts), c, v)
    {
      VipListed(store, c, vips, counts, v);
    }
  }

  lemma {:induction false} VipListed(store: Store, c: Collection, vips: seq<string>, counts: map<string, Reservation>, v: string)
    requires forall i :: 0 <= i < |vips| ==> vips[i] in counts
    requires v in vips && v in store.reservations
    ensures Listed(AssignVips(store, c, vips, counts), c, v)
    decreases |vips|
  {
    var v0 := vips[0];
    match Placement.AssignVipToGroup(store, c, v0, counts[v0].count)
    case None =>
      assert v0 != v;
      assert v in vips[1..];
      VipListed(store, c, vips[1..], counts, v);
    case Some((n, next)) =>
      if v == v0 {
        AssignVipLists(store, c, v0, counts[v0].count);
        StaysListed(next, c, vips[1..], counts, v0);
      } else {
        assert v in vips[1..];
        assert v in next.reservations;
        VipListed(next, c, vips[1..], counts, v);
      }
  }

  /** A VIP placement lists the placed reservation. */
  lemma AssignVipLists(store: Store, c: Collection, id: string, count: int)
    requires id in store.reservations
    ensures Listed(Placement.AssignVipToGroup(store, c, id, count).value.1, c, id)
  {
  }

  /** Later placements never unlist an already listed reservation. */
  lemma {:induction false} StaysListed(store: Store, c: Collection, vips: seq<string>, counts: map<string, Reservation>, id: string)
    requires forall i :: 0 <= i < |vips| ==> vips[i] in counts
    requires Listed(store, c, id)
    ensures Listed(AssignVips(store, c, vips, counts), c, id)
    decreases |vips|
  {
    if |vips| > 0 {
      match Placement.AssignVipToGroup(store, c, vips[0], counts[vips[0]].count)
      case None =>
        StaysListed(store, c, vips[1..], counts, id);
      case Some((n, next)) =>
        if vips[0] == id {
          assert Listed(next, c, id);
        } else {
          AssignVipKeepsListed(store, c, vips[0], counts[vips[0]].count, id);
        }
        StaysListed(next, c, vips[1..], counts, id);
    }
  }

  /** A waiting priority reservation of the day, as the second scan selects. */
  predicate PriorityWaiting(id: string, r: Reservation, date: string) {
    DayOf(id, r) == date && r.priority && r.status == Waiting
  }

  /** The priority candidates in stream order, each with its count. */
  function PriorityEntries(res: map<string, Reservation>, ids: seq<string>, date: string): (es: seq<PriorityGroups.Candidate>)
    ensures forall i :: 0 <= i < |es| ==>
      es[i].id in ids && es[i].id in res && PriorityWaiting(es[i].id, res[es[i].id], date)
      && es[i].count == res[es[i].id].count
    ensures forall id :: id in ids && id in res && PriorityWaiting(id, res[id], date) ==>
      exists i :: 0 <= i < |es| && es[i].id == id
  {
    if |ids| == 0 then []
    else
      var rest := PriorityEntries(res, ids[1..], date);
      assert forall v :: v in ids <==> v == ids[0] || v in ids[1..];
      if ids[0] in res && PriorityWaiting(ids[0], res[ids[0]], date) then
        var es := [PriorityGroups.Candidate(ids[0], res[ids[0]].count)] + rest;
        assert forall i :: 1 <= i < |es| ==> es[i] == rest[i - 1];
        assert es[0].id == ids[0];
        forall id | id in ids[1..] && id in res && PriorityWaiting(id, res[id], date)
          ensures exists i :: 0 <= i < |es| && es[i].id == id
        {
          var j :| 0 <= j < |rest| && rest[j].id == id;
          assert es[j + 1].id == id;
        }
        es
      else rest
  }

  /** The listed reservations that exist and are still waiting, in list order:
      the `reservations` array of the response. */
  function WaitingMembers(members: seq<string>, res: map<string, Reservation>): (ws: seq<string>)
    ensures forall x :: x in ws <==> x in members && x in res && res[x].status == Waiting
    ensures |ws| <= |members|
  {
    if |members| == 0 then []
    else
      var rest := WaitingMembers(members[1..], res);
      assert forall v :: v in members <==> v == members[0] || v in members[1..];
      if members[0] in res && res[members[0]].status == Waiting then [members[0]] + rest else rest
  }

  /** Selecting waiting members distributes over concatenation: the
      selection keeps the list's order. */
  lemma {:induction false} WaitingMembersConcat(a: seq<string>, b: seq<string>, res: map<string, Reservation>)
    ensures WaitingMembers(a + b, res) == WaitingMembers(a, res) + WaitingMembers(b, res)
    decreases |a|
  {
    if |a| == 0 {
      assert a + b == b;
    } else {
      assert (a + b)[0] == a[0];
      assert (a + b)[1..] == a[1..] + b;
      WaitingMembersConcat(a[1..], b, res);
      var head := if a[0] in res && res[a[0]].status == Waiting then [a[0]] else [];
      assert head + (WaitingMembers(a[1..], res) + WaitingMembers(b, res))
          == (head + WaitingMembers(a[1..], res)) + WaitingMembers(b, res);
    }
  }

  /** Collecting priority candidates distributes over concatenation of the
      stream: candidates come out in stream order. */
  lemma {:induction false} PriorityEntriesConcat(res: map<string, Reservation>, a: seq<string>, b: seq<string>, date: string)
    ensures PriorityEntries(res, a + b, date) == PriorityEntries(res, a, date) + PriorityEntries(res, b, date)
    decreases |a|
  {
    if |a| == 0 {
      assert a + b == b;
    } else {
      assert (a + b)[0] == a[0];
      assert (a + b)[1..] == a[1..] + b;
      PriorityEntriesConcat(res, a[1..], b, date);
      var head := if a[0] in res && PriorityWaiting(a[0], res[a[0]], date)
        then [PriorityGroups.Candidate(a[0], res[a[0]].count)] else [];
      assert head + (PriorityEntries(res, a[1..], date) + PriorityEntries(res, b, date))
          == (head + PriorityEntries(res, a[1..], date)) + PriorityEntries(res, b, date);
    }
  }

  /** Some listed waiting reservation carries the priority flag. */
  function AnyPriority(members: seq<string>, res: map<string, Reservation>): (b: bool)
    ensures b <==> exists x :: x in members && x in res && res[x].status == Waiting && res[x].priority
  {
    if |members| == 0 then false
    else
      assert forall v :: v in members <==> v == members[0] || v in members[1..];
      (members[0] in res && res[members[0]].status == Waiting && res[members[0]].priority)
        || AnyPriority(members[1..], res)
  }

  /** A group the walk may offer: waiting, with at least one waiting member. */
  predicate Offerable(groups: map<int, Group>, res: map<string, Reservation>, n: int) {
    n in groups && groups[n].status == GroupWaiting && WaitingMembers(groups[n].members, res) != []
  }

  /** The position in `order` of the first offerable group. */
  function Walk(order: seq<int>, groups: map<int, Group>, res: map<string, Reservation>): (r: Option<nat>)
    ensures r.None? <==> forall j :: 0 <= j < |order| ==> !Offerable(groups, res, order[j])
    ensures r.Some? ==> r.value < |order| && Offerable(groups, res, order[r.value])
    ensures r.Some? ==> forall j :: 0 <= j < r.value ==> !Offerable(groups, res, order[j])
  {
    if |order| == 0 then None
    else if Offerable(groups, res, order[0]) then Some(0)
    else match Walk(order[1..], groups, res)
      case None => None
      case Some(i) => Some(i + 1)
  }

  /** The group handed to the caller: the priority group just created (the
      response flags it `has_priority`), or one found by the walk. */
  datatype Offer =
    | CreatedOffer(number: int, members: seq<string>)
    | WalkedOffer(number: int, members: seq<string>, hasPriority: bool)
  {
    function HasPriority(): bool {
      match this
      case CreatedOffer(_, _) => true
      case WalkedOffer(_, _, p) => p
    }
  }

  /** The response part of `get_next_group` once the writes are done: the
      created priority group when it has a waiting member, else the walk. */
  function OfferFrom(groups: map<int, Group>, res: map<string, Reservation>, created: Option<int>, order: seq<int>): (o: Option<Offer>)
    ensures o.Some? ==>
      && o.value.number in groups
      && o.value.members == WaitingMembers(groups[o.value.number].members, res)
      && o.value.members != []
    ensures o.Some? && o.value.CreatedOffer? ==> created == Some(o.value.number) && o.value.number != 0
    ensures o.Some? && o.value.CreatedOffer? <==>
      created.Some? && created.value != 0 && created.value in groups
      && WaitingMembers(groups[created.value].members, res) != []
    ensures o.Some? && o.value.WalkedOffer? ==>
      && Offerable(groups, res, o.value.number)
      && (exists i :: 0 <= i < |order| && order[i] == o.value.number
            && forall j :: 0 <= j < i ==> !Offerable(groups, res, order[j]))
      && (o.value.hasPriority <==> AnyPriority(groups[o.value.number].members, res))
    ensures o.None? ==> forall j :: 0 <= j < |order| ==> !Offerable(groups, res, order[j])
  {
    if created.Some? && created.value != 0 && created.value in groups && WaitingMembers(groups[created.value].members, res) != [] then
      var n := created.value;
      Some(CreatedOffer(n, WaitingMembers(groups[n].members, res)))
    else
      match Walk(order, groups, res)
      case None => None
      case Some(i) =>
        var n := order[i];
        Some(WalkedOffer(n, WaitingMembers(groups[n].members, res), AnyPriority(groups[n].members, res)))
  }

  /** The writes of `get_next_group`: VIP placement, then the priority group
      when there are priority candidates. */
  function Prepare(store: Store, ids: seq<string>, date: string, now: int): (r: PriorityGroups.Created)
    ensures OnlyRegrouped(store.reservations, r.store.reservations)
    ensures forall d :: d != CollectionFor(date) ==> r.store.Groups(d) == store.Groups(d)
    ensures GroupsGrow(store.Groups(CollectionFor(date)), r.store.Groups(CollectionFor(date)))
    ensures r.number.Some? ==>
      var n := r.number.value;
      && n !in store.Groups(CollectionFor(date))
      && n in r.store.Groups(CollectionFor(date))
      && r.store.Groups(CollectionFor(date))[n].status == GroupWaiting
      && r.store.Groups(CollectionFor(date))[n].isPriority
      && (NonNegativeNumbers(store.Groups(CollectionFor(date))) ==> n >= 1)
  {
    var c := CollectionFor(date);
    var vips := ReadyVips(store.reservations, ids, date, now);
    var placed := AssignVips(store, c, vips, store.reservations);
    var entries := PriorityEntries(placed.reservations, ids, date);
    if entries == [] then PriorityGroups.Created(None, placed)
    else
      var created := PriorityGroups.CreatePriorityGroup(placed, c, entries);
      CreatedKeepsShape(placed, c, entries);
      RegroupedTransitive(store.reservations, placed.reservations, created.store.reservations);
      GrowTransitive(store.Groups(c), placed.Groups(c), created.store.Groups(c));
      created
  }

  /** `create_priority_group` only rewrites `group` fields and adds a group. */
  lemma CreatedKeepsShape(store: Store, c: Collection, entries: seq<PriorityGroups.Candidate>)
    ensures var r := PriorityGroups.CreatePriorityGroup(store, c, entries);
      && OnlyRegrouped(store.reservations, r.store.reservations)
      && GroupsGrow(store.Groups(c), r.store.Groups(c))
  {
  }

  /** The whole `get_next_group` request: the store after its writes and the
      group it offers, if any. */
  function GetNextGroup(store: Store, ids: seq<string>, order: seq<int>, date: string, now: int): (r: (Store, Option<Offer>))
    ensures OnlyRegrouped(store.reservations, r.0.reservations)
    ensures forall d :: d != CollectionFor(date) ==> r.0.Groups(d) == store.Groups(d)
    ensures GroupsGrow(store.Groups(CollectionFor(date)), r.0.Groups(CollectionFor(date)))
    ensures r.1.Some? ==>
      var o := r.1.value;
      var groups := r.0.Groups(CollectionFor(date));
      && Offerable(groups, r.0.reservations, o.number)
      && o.members == WaitingMembers(groups[o.number].members, r.0.reservations)
    ensures r.1.Some? && r.1.value.CreatedOffer? ==>
      var n := r.1.value.number;
      && n !in store.Groups(CollectionFor(date))
      && r.0.Groups(CollectionFor(date))[n].isPriority
    ensures r.1.Some? && r.1.value.WalkedOffer? ==>
      var groups := r.0.Groups(CollectionFor(date));
      && (exists i :: 0 <= i < |order| && order[i] == r.1.value.number
            && forall j :: 0 <= j < i ==> !Offerable(groups, r.0.reservations, order[j]))
      && (r.1.value.hasPriority <==> AnyPriority(groups[r.1.value.number].members, r.0.reservations))
    ensures r.1.None? ==>
      forall j :: 0 <= j < |order| ==> !Offerable(r.0.Groups(CollectionFor(date)), r.0.reservations, order[j])
  {
    var prepared := Prepare(store, ids, date, now);
    var s := prepared.store;
    (s, OfferFrom(s.Groups(CollectionFor(date)), s.reservations, prepared.number, order))
  }

  /** A priority group packed from waiting candidates, one of which fits on
      its own, is created and has a waiting member. */
  lemma CreatedGroupWaits(store: Store, c: Collection, entries: seq<PriorityGroups.Candidate>, k: nat)
    requires forall i :: 0 <= i < |entries| ==>
      entries[i].id in store.reservations && store.reservations[entries[i].id].status == Waiting
    requires k < |entries| && entries[k].count <= Capacity
    ensures var created := PriorityGroups.CreatePriorityGroup(store, c, entries);
      && created.number.Some?
      && created.number.value in created.store.Groups(c)
      && WaitingMembers(created.store.Groups(c)[created.number.value].members, created.store.reservations) != []
  {
    var created := PriorityGroups.CreatePriorityGroup(store, c, entries);
    var n := created.number.value;
    var ps := PriorityGroups.Picked(entries, PriorityGroups.Choose(entries, 0));
    assert ps[0] in entries;
    var members := created.store.Groups(c)[n].members;
    assert members[0] == ps[0].id;
    assert ps[0].id in WaitingMembers(members, created.store.reservations);
  }

  /** A created group with a non-zero number and a waiting member is offered. */
  lemma CreatedIsOffered(groups: map<int, Group>, res: map<string, Reservation>, n: int, order: seq<int>)
    requires n != 0 && n in groups && WaitingMembers(groups[n].members, res) != []
    ensures OfferFrom(groups, res, Some(n), order) == Some(CreatedOffer(n, WaitingMembers(groups[n].members, res)))
  {
  }

  /** Preparing with a waiting priority reservation of the day that fits a
      group on its own creates a numbered group with a waiting member. */
  lemma PreparedHasWaitingGroup(store: Store, ids: seq<string>, date: string, now: int, id: string)
    requires id in ids && id in store.reservations
    requires PriorityWaiting(id, store.reservations[id], date)
    requires store.reservations[id].count <= Capacity
    requires NonNegativeNumbers(store.Groups(CollectionFor(date)))
    ensures var prepared := Prepare(store, ids, date, now);
      var groups := prepared.store.Groups(CollectionFor(date));
      && prepared.number.Some? && prepared.number.value != 0 && prepared.number.value in groups
      && WaitingMembers(groups[prepared.number.value].members, prepared.store.reservations) != []
  {
    PlacedCandidateWaits(store, ids, date, now, id);
    PrepareCreates(store, ids, date, now);
  }

  /** After the VIP pass the candidate is still collected, so packing
      creates a group with a waiting member. */
  lemma PlacedCandidateWaits(store: Store, ids: seq<string>, date: string, now: int, id: string)
    requires id in ids && id in store.reservations
    requires PriorityWaiting(id, store.reservations[id], date)
    requires store.reservations[id].count <= Capacity
    ensures var c := CollectionFor(date);
      var placed := AssignVips(store, c, ReadyVips(store.reservations, ids, date, now), store.reservations);
      var entries := PriorityEntries(placed.reservations, ids, date);
      var created := PriorityGroups.CreatePriorityGroup(placed, c, entries);
      && entries != []
      && created.number.Some? && created.number.value in created.store.Groups(c)
      && WaitingMembers(created.store.Groups(c)[created.number.value].members, created.store.reservations) != []
  {
    var c := CollectionFor(date);
    var placed := AssignVips(store, c, ReadyVips(store.reservations, ids, date, now), store.reservations);
    StillPriorityWaiting(store.reservations, placed.reservations, id, date);
    CandidateGroupWaits(placed, c, ids, date, id);
  }

  /** Packing the collected candidates, one of which fits on its own, creates
      a group with a waiting member. */
  lemma CandidateGroupWaits(store: Store, c: Collection, ids: seq<string>, date: string, id: string)
    requires id in ids && id in store.reservations
    requires PriorityWaiting(id, store.reservations[id], date)
    requires store.reservations[id].count <= Capacity
    ensures var entries := PriorityEntries(store.reservations, ids, date);
      var created := PriorityGroups.CreatePriorityGroup(store, c, entries);
      && entries != []
      && created.number.Some? && created.number.value in created.store.Groups(c)
      && WaitingMembers(created.store.Groups(c)[created.number.value].members, created.store.reservations) != []
  {
    var entries := PriorityEntries(store.reservations, ids, date);
    var k := CandidateAt(store.reservations, ids, date, id);
    EntriesWaiting(store.reservations, ids, date);
    CreatedGroupWaits(store, c, entries, k);
  }

  lemma EntriesWaiting(res: map<string, Reservation>, ids: seq<string>, date: string)
    ensures var entries := PriorityEntries(res, ids, date);
      forall i :: 0 <= i < |entries| ==> entries[i].id in res && res[entries[i].id].status == Waiting
  {
  }

  /** Rewriting `group` fields keeps a priority candidate a candidate, with
      its count. */
  lemma StillPriorityWaiting(before: map<string, Reservation>, after: map<string, Reservation>, id: string, date: string)
    requires OnlyRegrouped(before, after)
    requires id in before && PriorityWaiting(id, before[id], date)
    ensures id in after && PriorityWaiting(id, after[id], date) && after[id].count == before[id].count
  {
    assert after[id] == before[id].(group := after[id].group);
  }

  /** The position of a priority candidate among the collected entries. */
  lemma CandidateAt(res: map<string, Reservation>, ids: seq<string>, date: string, id: string) returns (k: nat)
    requires id in ids && id in res && PriorityWaiting(id, res[id], date)
    ensures var entries := PriorityEntries(res, ids, date);
      k < |entries| && entries[k].id == id && entries[k].count == res[id].count
  {
    var entries := PriorityEntries(res, ids, date);
    k :| 0 <= k < |entries| && entries[k].id == id;
  }

  /** With priority candidates present, preparing is the VIP pass followed
      by `create_priority_group`. */
  lemma PrepareCreates(store: Store, ids: seq<string>, date: string, now: int)
    ensures var c := CollectionFor(date);
      var placed := AssignVips(store, c, ReadyVips(store.reservations, ids, date, now), store.reservations);
      var entries := PriorityEntries(placed.reservations, ids, date);
      entries != [] ==> Prepare(store, ids, date, now) == PriorityGroups.CreatePriorityGroup(placed, c, entries)
  {
  }

  /** A waiting priority reservation of the day that fits a group on its own
      always yields a freshly created priority group, ahead of the walk. */
  lemma PriorityGroupComesFirst(store: Store, ids: seq<string>, order: seq<int>, date: string, now: int, id: string)
    requires id in ids && id in store.reservations
    requires PriorityWaiting(id, store.reservations[id], date)
    requires store.reservations[id].count <= Capacity
    requires NonNegativeNumbers(store.Groups(CollectionFor(date)))
    ensures var r := GetNextGroup(store, ids, order, date, now);
      r.1.Some? && r.1.value.CreatedOffer? && r.1.value.HasPriority()
  {
    var prepared := Prepare(store, ids, date, now);
    PreparedHasWaitingGroup(store, ids, date, now, id);
    var groups := prepared.store.Groups(CollectionFor(date));
    CreatedIsOffered(groups, prepared.store.reservations, prepared.number.value, order);
  }
}

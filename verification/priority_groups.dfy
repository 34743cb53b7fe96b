/** Packing priority (re-admitted) reservations into a new group
    (app.py `create_priority_group`). */
module PriorityGroups {
  import opened Wrappers
  import opened Snapshot
  import Allocation
  import Placement

  /** One entry of the priority list the caller assembles, in stream order. */
  datatype Candidate = Candidate(id: string, count: int)

  function Sum(cs: seq<Candidate>): int {
    if |cs| == 0 then 0 else cs[0].count + Sum(cs[1..])
  }

  lemma SumCons(c: Candidate, cs: seq<Candidate>)
    ensures Sum([c] + cs) == c.count + Sum(cs)
  {
    assert ([c] + cs)[1..] == cs;
  }

  function Ids(cs: seq<Candidate>): (ids: seq<string>)
    ensures |ids| == |cs|
    ensures forall i :: 0 <= i < |cs| ==> ids[i] == cs[i].id
  {
    if |cs| == 0 then [] else [cs[0].id] + Ids(cs[1..])
  }

  /** The greedy pass: entry `i` is taken when it still fits on top of the
      running total `total` of the entries taken before it. */
  function Choose(entries: seq<Candidate>, total: int): (mask: seq<bool>)
    ensures |mask| == |entries|
  {
    if |entries| == 0 then []
    else
      var take := total + entries[0].count <= Capacity;
      [take] + Choose(entries[1..], if take then total + entries[0].count else total)
  }

  /** The entries a mask selects, in their original order. */
  function Picked(entries: seq<Candidate>, mask: seq<bool>): (ps: seq<Candidate>)
    requires |mask| == |entries|
    ensures |ps| <= |entries|
    ensures forall p :: p in ps ==> p in entries
  {
    if |entries| == 0 then []
    else (if mask[0] then [entries[0]] else []) + Picked(entries[1..], mask[1..])
  }

  /** The greedy rule, position by position: an entry is taken exactly when it
      fits on top of everything taken before it; an entry that overflows is
      skipped and the later ones are still tried. */
  lemma {:induction false} GreedyRule(entries: seq<Candidate>, total: int, i: nat)
    requires i < |entries|
    ensures var mask := Choose(entries, total);
      mask[i] <==> total + Sum(Picked(entries[..i], mask[..i])) + entries[i].count <= Capacity
  {
    var mask := Choose(entries, total);
    if i > 0 {
      var take := total + entries[0].count <= Capacity;
      var total' := if take then total + entries[0].count else total;
      GreedyRule(entries[1..], total', i - 1);
      var rest := Picked(entries[1..][..i - 1], Choose(entries[1..], total')[..i - 1]);
      assert entries[..i][1..] == entries[1..][..i - 1];
      assert mask[..i][1..] == Choose(entries[1..], total')[..i - 1];
      assert Picked(entries[..i], mask[..i]) == (if take then [entries[0]] else []) + rest;
      if take {
        SumCons(entries[0], rest);
      } else {
        assert [] + rest == rest;
      }
    }
  }

  /** Whatever is taken fits in one group on top of the starting total. */
  lemma {:induction false} PickedWithinCapacity(entries: seq<Candidate>, total: int)
    ensures var ps := Picked(entries, Choose(entries, total));
      ps != [] ==> total + Sum(ps) <= Capacity
  {
    if |entries| > 0 {
      var take := total + entries[0].count <= Capacity;
      var total' := if take then total + entries[0].count else total;
      PickedWithinCapacity(entries[1..], total');
      var rest := Picked(entries[1..], Choose(entries[1..], total'));
      if take {
        SumCons(entries[0], rest);
      } else {
        assert [] + rest == rest;
      }
    }
  }

  /** Nothing is taken exactly when every entry alone overflows the total. */
  lemma {:induction false} NothingPicked(entries: seq<Candidate>, total: int)
    ensures Picked(entries, Choose(entries, total)) == [] <==>
      forall i :: 0 <= i < |entries| ==> total + entries[i].count > Capacity
  {
    if |entries| > 0 {
      var take := total + entries[0].count <= Capacity;
      if !take {
        NothingPicked(entries[1..], total);
        assert forall i :: 1 <= i < |entries| ==> entries[i] == entries[1..][i - 1];
      }
    }
  }

  /** The group `create_priority_group` would form: a fresh number and the ids
      taken by the greedy pass; `None` when nothing fits. */
  function Plan(existing: set<int>, entries: seq<Candidate>): (r: Option<(int, seq<string>)>)
    ensures r.None? <==> forall i :: 0 <= i < |entries| ==> entries[i].count > Capacity
    ensures r.Some? ==> r.value.0 !in existing && forall e :: e in existing ==> e < r.value.0
    ensures r.Some? ==> existing == {} ==> r.value.0 == 1
    ensures r.Some? ==> existing != {} ==> r.value.0 - 1 in existing
    ensures r.Some? ==> var ps := Picked(entries, Choose(entries, 0));
      r.value.1 == Ids(ps) && ps != [] && Sum(ps) <= Capacity
  {
    var ps := Picked(entries, Choose(entries, 0));
    NothingPicked(entries, 0);
    PickedWithinCapacity(entries, 0);
    if ps == [] then None else Some((Allocation.NextAvailable(existing), Ids(ps)))
  }

  /** Points every listed reservation at group `n`. */
  function AssignGroup(res: map<string, Reservation>, ids: seq<string>, n: int): (r: map<string, Reservation>)
    requires forall i :: 0 <= i < |ids| ==> ids[i] in res
    ensures r.Keys == res.Keys
    ensures forall k :: k in res && k in ids ==> r[k] == res[k].(group := n)
    ensures forall k :: k in res && k !in ids ==> r[k] == res[k]
  {
    if |ids| == 0 then res
    else
      var r := AssignGroup(res, ids[1..], n);
      assert forall k :: k in ids ==> k == ids[0] || k in ids[1..];
      r[ids[0] := r[ids[0]].(group := n)]
  }

  datatype Created = Created(number: Option<int>, store: Store)

  /** `create_priority_group` on a snapshot: the greedy selection is written
      into a new waiting group flagged `is_priority`, and each selected
      reservation points at it. `None` leaves the store as it was: nothing
      fitted, or a selected reservation document is missing (the write would
      raise). */
  function CreatePriorityGroup(store: Store, c: Collection, entries: seq<Candidate>): (r: Created)
    ensures r.number.None? ==> r.store == store
    ensures r.number.None? && (forall i :: 0 <= i < |entries| ==> entries[i].id in store.reservations) ==>
      forall i :: 0 <= i < |entries| ==> entries[i].count > Capacity
    ensures r.number.Some? ==>
      var n := r.number.value;
      var ps := Picked(entries, Choose(entries, 0));
      && n !in store.Groups(c)
      && (forall e :: e in store.Groups(c) ==> e < n)
      && (NonNegativeNumbers(store.Groups(c)) ==> n >= 1)
      && Placement.OnlyChanged(store.Groups(c), r.store.Groups(c), n)
      && r.store.Groups(c)[n] == Group(GroupWaiting, Ids(ps), true)
      && ps != []
      && Sum(ps) <= Capacity
      && (forall d :: d != c ==> r.store.Groups(d) == store.Groups(d))
      && r.store.reservations.Keys == store.reservations.Keys
      && (forall k :: k in store.reservations && k in Ids(ps) ==>
            r.store.reservations[k] == store.reservations[k].(group := n))
      && (forall k :: k in store.reservations && k !in Ids(ps) ==>
            r.store.reservations[k] == store.reservations[k])
  {
    match Plan(store.Groups(c).Keys, entries)
    case None => Created(None, store)
    case Some((n, ids)) =>
      if exists i :: 0 <= i < |ids| && ids[i] !in store.reservations then
        var ps := Picked(entries, Choose(entries, 0));
        var i :| 0 <= i < |ids| && ids[i] !in store.reservations;
        assert ps[i] in entries;
        Created(None, store)
      else
        var s := store.WithGroups(c, Placement.SetGroup(store.Groups(c), n, Group(GroupWaiting, ids, true)));
        Created(Some(n), s.(reservations := AssignGroup(s.reservations, ids, n)))
  }
}

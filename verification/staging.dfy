/** The group being assembled on the client (script.js `addToCallGroup`,
    `removeFromCallGroup`, `updateGroupCount`): an ordered list of staged
    reservations whose headcount never exceeds four. */
module Staging {

  /** The largest headcount the staging area accepts. */
  const Limit: int := 4

  datatype Staged = Staged(id: string, count: int)

  function Total(s: seq<Staged>): int {
    if |s| == 0 then 0 else Total(s[..|s| - 1]) + s[|s| - 1].count
  }

  lemma TotalAppend(s: seq<Staged>, x: Staged)
    ensures Total(s + [x]) == Total(s) + x.count
  {
    assert (s + [x])[..|s|] == s;
  }

  predicate IsStaged(s: seq<Staged>, id: string) {
    exists i :: 0 <= i < |s| && s[i].id == id
  }

  /** No id is staged twice. */
  predicate DistinctIds(s: seq<Staged>) {
    forall i, j :: 0 <= i < j < |s| ==> s[i].id != s[j].id
  }

  /** What an add does: nothing for an id already staged, an alert and
      nothing for an overflowing party, otherwise an append. */
  datatype AddOutcome = AlreadyStaged | OverCapacity | Added

  function AddOutcomeOf(s: seq<Staged>, id: string, count: int): AddOutcome {
    if IsStaged(s, id) then AlreadyStaged
    else if Total(s) + count > Limit then OverCapacity
    else Added
  }

  function Add(s: seq<Staged>, id: string, count: int): (r: seq<Staged>)
    ensures AddOutcomeOf(s, id, count) != Added ==> r == s
    ensures AddOutcomeOf(s, id, count) == Added ==> r == s + [Staged(id, count)]
    ensures Total(s) <= Limit ==> Total(r) <= Limit
    ensures DistinctIds(s) ==> DistinctIds(r)
  {
    if AddOutcomeOf(s, id, count) == Added then
      TotalAppend(s, Staged(id, count));
      s + [Staged(id, count)]
    else s
  }

  /** `removeFromCallGroup`: drops every entry with that id, keeping the order
      of the rest. */
  function Remove(s: seq<Staged>, id: string): (r: seq<Staged>)
    ensures !IsStaged(r, id)
    ensures forall x :: x in r <==> x in s && x.id != id
    ensures |r| <= |s|
  {
    if |s| == 0 then []
    else
      var rest := Remove(s[..|s| - 1], id);
      var last := s[|s| - 1];
      assert s == s[..|s| - 1] + [last];
      if last.id == id then rest else rest + [last]
  }

  /** Removal works piecewise, so the survivors keep their relative order:
      `Remove` is the order-preserving filter. */
  lemma {:induction false} RemoveConcat(a: seq<Staged>, b: seq<Staged>, id: string)
    ensures Remove(a + b, id) == Remove(a, id) + Remove(b, id)
    decreases |b|
  {
    if |b| == 0 {
      assert a + b == a;
    } else {
      var init := b[..|b| - 1];
      var last := b[|b| - 1];
      assert a + b == (a + init) + [last];
      assert (a + b)[..|a + b| - 1] == a + init;
      RemoveConcat(a, init, id);
    }
  }

  /** The count label and the accept button's state. */
  datatype Display = Display(count: int, acceptDisabled: bool)

  function ShowGroup(s: seq<Staged>): (d: Display)
    ensures d.acceptDisabled <==> s == []
    ensures s == [] ==> d.count == 0
  {
    Display(Total(s), |s| == 0)
  }

  /** After a successful add the displayed count rises by the party size and
      the accept button is enabled. */
  lemma DisplayAfterAdd(s: seq<Staged>, id: string, count: int)
    requires AddOutcomeOf(s, id, count) == Added
    ensures ShowGroup(Add(s, id, count)).count == ShowGroup(s).count + count
    ensures !ShowGroup(Add(s, id, count)).acceptDisabled
  {
    TotalAppend(s, Staged(id, count));
  }

  /** Removing an id restores the list as it was before that id was added. */
  lemma {:induction false} RemoveUndoesAdd(s: seq<Staged>, id: string, count: int)
    requires AddOutcomeOf(s, id, count) == Added
    ensures Remove(Add(s, id, count), id) == s
  {
    RemoveAbsent(s, id);
    var t := s + [Staged(id, count)];
    assert t[..|t| - 1] == s;
  }

  /** Removing an id that is not staged changes nothing. */
  lemma {:induction false} RemoveAbsent(s: seq<Staged>, id: string)
    requires !IsStaged(s, id)
    ensures Remove(s, id) == s
  {
    if |s| > 0 {
      var init := s[..|s| - 1];
      RemoveAbsent(init, id);
      assert s == init + [s[|s| - 1]];
    }
  }

  /** Removing a staged id from a list without duplicates lowers the displayed
      count by exactly its party size. */
  lemma {:induction false} RemoveLowersTotal(s: seq<Staged>, i: nat)
    requires i < |s| && DistinctIds(s)
    ensures Total(Remove(s, s[i].id)) == Total(s) - s[i].count
    ensures ShowGroup(Remove(s, s[i].id)).count == ShowGroup(s).count - s[i].count
    decreases |s|
  {
    var init := s[..|s| - 1];
    var last := s[|s| - 1];
    assert s == init + [last];
    if i == |s| - 1 {
      RemoveAbsent(init, last.id);
    } else {
      assert init[i] == s[i];
      RemoveLowersTotal(init, i);
      TotalAppend(Remove(init, s[i].id), last);
    }
  }

  /** One user action on the staging area. */
  datatype Action = AddAction(id: string, count: int) | RemoveAction(id: string)

  function Apply(s: seq<Staged>, a: Action): seq<Staged> {
    match a
    case AddAction(id, count) => Add(s, id, count)
    case RemoveAction(id) => Remove(s, id)
  }

  function Replay(s: seq<Staged>, actions: seq<Action>): seq<Staged>
    decreases |actions|
  {
    if |actions| == 0 then s else Replay(Apply(s, actions[0]), actions[1..])
  }

  /** Removing keeps the other ids distinct. */
  lemma {:induction false} RemoveKeepsDistinct(s: seq<Staged>, id: string)
    requires DistinctIds(s)
    ensures DistinctIds(Remove(s, id))
    decreases |s|
  {
    if |s| > 0 {
      var init := s[..|s| - 1];
      var last := s[|s| - 1];
      RemoveKeepsDistinct(init, id);
      var rest := Remove(init, id);
      if last.id != id {
        forall x | x in rest
          ensures x.id != last.id
        {
          var k :| 0 <= k < |init| && init[k] == x;
          assert s[k] == x;
        }
      }
    }
  }

  /** Removing never raises the headcount above the limit. */
  lemma {:induction false} RemoveKeepsLimit(s: seq<Staged>, id: string)
    requires Total(s) <= Limit && DistinctIds(s) && CountsNonNegative(s)
    ensures Total(Remove(s, id)) <= Limit
  {
    if IsStaged(s, id) {
      var i :| 0 <= i < |s| && s[i].id == id;
      RemoveLowersTotal(s, i);
    } else {
      RemoveAbsent(s, id);
    }
  }

  /** Every staged party size is non-negative. */
  predicate CountsNonNegative(s: seq<Staged>) {
    forall i :: 0 <= i < |s| ==> s[i].count >= 0
  }

  /** One action keeps the staging invariant. */
  lemma ApplyKeepsInvariant(s: seq<Staged>, a: Action)
    requires Total(s) <= Limit && DistinctIds(s) && CountsNonNegative(s)
    requires a.AddAction? ==> a.count >= 0
    ensures var r := Apply(s, a); Total(r) <= Limit && DistinctIds(r) && CountsNonNegative(r)
  {
    var r := Apply(s, a);
    if a.RemoveAction? {
      RemoveKeepsLimit(s, a.id);
      RemoveKeepsDistinct(s, a.id);
    }
    forall i | 0 <= i < |r|
      ensures r[i].count >= 0
    {
      assert r[i] in r;
      assert r[i] in s || (a.AddAction? && r[i] == Staged(a.id, a.count));
    }
  }

  /** Starting from a list within the limit, any sequence of staging actions
      with non-negative party sizes keeps the ids distinct and the headcount
      within the limit. */
  lemma {:induction false} ReplayKeepsInvariant(s: seq<Staged>, actions: seq<Action>)
    requires Total(s) <= Limit && DistinctIds(s) && CountsNonNegative(s)
    requires forall i :: 0 <= i < |actions| && actions[i].AddAction? ==> actions[i].count >= 0
    ensures var r := Replay(s, actions); Total(r) <= Limit && DistinctIds(r)
    decreases |actions|
  {
    if |actions| > 0 {
      ApplyKeepsInvariant(s, actions[0]);
      ReplayKeepsInvariant(Apply(s, actions[0]), actions[1..]);
    }
  }
}

/** The group screen's queues (script.js `loadGroupScreen`): the day's waiting
    reservations are split into the normal lane and the time-slot (VIP) lane,
    absent ones are dropped, and each lane is sorted with a stable sort. */
module Lanes {
  import opened Wrappers
  import Strings

  // The client's day labels.
  const Nov1: string := "11/1"
  const Nov2: string := "11/2"

  /** A reservation as the client receives it. `createdAt` is the creation
      instant in milliseconds; `time` is the VIP slot as "HH:MM", "" when
      absent. */
  datatype Entry = Entry(
    id: string,
    count: int,
    priority: bool,
    createdAt: int,
    time: string,
    absent: bool)

  datatype Lane = Normal | TimeSlot

  /** The lane an entry is shown in on `day`, if any. */
  function LaneOf(e: Entry, day: string): Option<Lane> {
    if e.absent || |e.id| == 0 then None
    else
      var k := e.id[0];
      if k == 'X' || k == 'Y' then
        if (day == Nov1 && k == 'X') || (day == Nov2 && k == 'Y') then Some(TimeSlot) else None
      else if (day == Nov1 && (k == 'A' || k == 'C')) || (day == Nov2 && (k == 'B' || k == 'D')) then Some(Normal)
      else None
  }

  /** The comparator of a lane, as a strict order: `a` must come before `b`.
      The time lane orders only entries that both carry a time. */
  predicate Precedes(lane: Lane, a: Entry, b: Entry) {
    match lane
    case Normal =>
      (a.priority && !b.priority) || (a.priority == b.priority && a.createdAt < b.createdAt)
    case TimeSlot =>
      a.time != "" && b.time != "" && Strings.Less(a.time, b.time)
  }

  lemma PrecedesIrreflexive(lane: Lane, a: Entry)
    ensures !Precedes(lane, a, a)
  {
    Strings.LessIrreflexive(a.time);
  }

  lemma PrecedesTransitive(lane: Lane, a: Entry, b: Entry, c: Entry)
    requires Precedes(lane, a, b) && Precedes(lane, b, c)
    ensures Precedes(lane, a, c)
  {
    if lane == TimeSlot {
      Strings.LessTransitive(a.time, b.time, c.time);
    }
  }

  /** No entry is preceded by a later one. */
  ghost predicate Sorted(lane: Lane, s: seq<Entry>) {
    forall i, j :: 0 <= i < j < |s| ==> !Precedes(lane, s[j], s[i])
  }

  /** Stable insertion: `x` goes after every entry it does not precede. */
  function Insert(lane: Lane, x: Entry, s: seq<Entry>): (r: seq<Entry>)
    ensures multiset(r) == multiset(s) + multiset{x}
    ensures |r| == |s| + 1
  {
    if |s| == 0 then [x]
    else if Precedes(lane, x, s[0]) then [x] + s
    else
      var rest := Insert(lane, x, s[1..]);
      assert s == [s[0]] + s[1..];
      [s[0]] + rest
  }

  /** An entry that no member of a sorted list precedes may head it. */
  lemma ConsSorted(lane: Lane, h: Entry, t: seq<Entry>)
    requires Sorted(lane, t)
    requires forall k :: 0 <= k < |t| ==> !Precedes(lane, t[k], h)
    ensures Sorted(lane, [h] + t)
  {
    var r := [h] + t;
    assert forall k :: 0 < k < |r| ==> r[k] == t[k - 1];
  }

  /** Nothing in the tail of a sorted list precedes its head. */
  lemma SortedHead(lane: Lane, s: seq<Entry>, y: Entry)
    requires Sorted(lane, s) && |s| > 0 && y in multiset(s[1..])
    ensures !Precedes(lane, y, s[0])
  {
    var m :| 0 <= m < |s[1..]| && s[1..][m] == y;
    assert s[m + 1] == y;
  }

  lemma InsertFrontSorted(lane: Lane, x: Entry, s: seq<Entry>)
    requires Sorted(lane, s) && |s| > 0 && Precedes(lane, x, s[0])
    ensures Sorted(lane, [x] + s)
  {
    forall k | 0 <= k < |s|
      ensures !Precedes(lane, s[k], x)
    {
      if Precedes(lane, s[k], x) {
        PrecedesTransitive(lane, s[k], x, s[0]);
        if k == 0 {
          PrecedesIrreflexive(lane, s[0]);
        }
        assert false;
      }
    }
    ConsSorted(lane, x, s);
  }

  lemma {:induction false} InsertSorted(lane: Lane, x: Entry, s: seq<Entry>)
    requires Sorted(lane, s)
    ensures Sorted(lane, Insert(lane, x, s))
    decreases |s|
  {
    if |s| == 0 {
    } else if Precedes(lane, x, s[0]) {
      InsertFrontSorted(lane, x, s);
    } else {
      InsertSorted(lane, x, s[1..]);
      var rest := Insert(lane, x, s[1..]);
      forall k | 0 <= k < |rest|
        ensures !Precedes(lane, rest[k], s[0])
      {
        assert rest[k] in multiset(rest);
        if rest[k] != x {
          SortedHead(lane, s, rest[k]);
        }
      }
      ConsSorted(lane, s[0], rest);
    }
  }

  lemma MultisetSnoc(xs: seq<Entry>)
    requires |xs| > 0
    ensures multiset(xs) == multiset(xs[..|xs| - 1]) + multiset{xs[|xs| - 1]}
  {
    assert xs == xs[..|xs| - 1] + [xs[|xs| - 1]];
  }

  /** Two entries the lane's comparator cannot tell apart: the same priority
      and creation time in the normal lane, the same time text in the time
      lane. */
  predicate SameRank(lane: Lane, a: Entry, b: Entry) {
    match lane
    case Normal => a.priority == b.priority && a.createdAt == b.createdAt
    case TimeSlot => a.time == b.time
  }

  /** Wherever the comparator is consistent, it calls two entries equal
      exactly when they share a rank. */
  lemma TiesAreSameRank(lane: Lane, a: Entry, b: Entry)
    requires lane == Normal || (a.time != "" && b.time != "")
    ensures !Precedes(lane, a, b) && !Precedes(lane, b, a) <==> SameRank(lane, a, b)
  {
    if lane == TimeSlot {
      if a.time == b.time {
        Strings.LessIrreflexive(a.time);
      } else {
        Strings.LessTotal(a.time, b.time);
      }
    }
  }

  /** The entries of `s` that share a rank with `e`, in their order in `s`. */
  function RankedWith(lane: Lane, e: Entry, s: seq<Entry>): seq<Entry> {
    if |s| == 0 then []
    else (if SameRank(lane, s[0], e) then [s[0]] else []) + RankedWith(lane, e, s[1..])
  }

  lemma {:induction false} RankedSnoc(lane: Lane, e: Entry, p: seq<Entry>, x: Entry)
    ensures RankedWith(lane, e, p + [x]) == RankedWith(lane, e, p) + (if SameRank(lane, x, e) then [x] else [])
    decreases |p|
  {
    if |p| == 0 {
      assert p + [x] == [x];
    } else {
      assert (p + [x])[1..] == p[1..] + [x];
      RankedSnoc(lane, e, p[1..], x);
    }
  }

  lemma {:induction false} RankedNone(lane: Lane, e: Entry, s: seq<Entry>)
    requires forall k :: 0 <= k < |s| ==> !SameRank(lane, s[k], e)
    ensures RankedWith(lane, e, s) == []
    decreases |s|
  {
    if |s| > 0 {
      RankedNone(lane, e, s[1..]);
    }
  }

  /** An entry that goes in front of a sorted list shares a rank with none
      of it. */
  lemma FrontOutranks(lane: Lane, x: Entry, s: seq<Entry>, e: Entry)
    requires Sorted(lane, s) && |s| > 0 && Precedes(lane, x, s[0]) && SameRank(lane, x, e)
    ensures RankedWith(lane, e, s) == []
  {
    forall k | 0 <= k < |s|
      ensures !SameRank(lane, s[k], e)
    {
      if SameRank(lane, s[k], e) {
        assert Precedes(lane, s[k], s[0]);
        if k == 0 {
          PrecedesIrreflexive(lane, s[0]);
        }
        assert false;
      }
    }
    RankedNone(lane, e, s);
  }

  lemma RankedCons(lane: Lane, e: Entry, h: Entry, t: seq<Entry>)
    ensures RankedWith(lane, e, [h] + t) == (if SameRank(lane, h, e) then [h] else []) + RankedWith(lane, e, t)
  {
    assert ([h] + t)[1..] == t;
  }

  /** The rank filter of a list that `x` heads, when `x` goes in front. */
  lemma InsertFrontRanks(lane: Lane, x: Entry, s: seq<Entry>, e: Entry)
    requires Sorted(lane, s) && |s| > 0 && Precedes(lane, x, s[0])
    ensures RankedWith(lane, e, [x] + s) == RankedWith(lane, e, s) + (if SameRank(lane, x, e) then [x] else [])
  {
    RankedCons(lane, e, x, s);
    if SameRank(lane, x, e) {
      FrontOutranks(lane, x, s, e);
      assert RankedWith(lane, e, s) + [x] == [x];
    } else {
      assert RankedWith(lane, e, s) + [] == RankedWith(lane, e, s);
    }
  }

  lemma SortedTail(lane: Lane, s: seq<Entry>)
    requires Sorted(lane, s) && |s| > 0
    ensures Sorted(lane, s[1..])
  {
    assert forall i :: 0 <= i < |s[1..]| ==> s[1..][i] == s[i + 1];
  }

  lemma InsertEmptyRanks(lane: Lane, x: Entry, e: Entry)
    ensures RankedWith(lane, e, Insert(lane, x, [])) == if SameRank(lane, x, e) then [x] else []
  {
    RankedCons(lane, e, x, []);
    assert [x] + [] == [x];
  }

  lemma ConcatAssoc(a: seq<Entry>, b: seq<Entry>, c: seq<Entry>)
    ensures a + (b + c) == (a + b) + c
  {
  }

  /** Putting the head of `t` on a list whose rank filter is that of `t`'s
      tail plus a suffix gives the rank filter of `t` plus that suffix. */
  lemma SameHeadRanks(lane: Lane, e: Entry, a: seq<Entry>, t: seq<Entry>, tail: seq<Entry>)
    requires |t| > 0 && RankedWith(lane, e, a) == RankedWith(lane, e, t[1..]) + tail
    ensures RankedWith(lane, e, [t[0]] + a) == RankedWith(lane, e, t) + tail
  {
    var head := if SameRank(lane, t[0], e) then [t[0]] else [];
    RankedCons(lane, e, t[0], a);
    ConcatAssoc(head, RankedWith(lane, e, t[1..]), tail);
  }

  /** Insertion past the head of the list keeps the head's place in the rank
      filter. */
  lemma InsertPastHeadRanks(lane: Lane, x: Entry, s: seq<Entry>, e: Entry)
    requires |s| > 0 && !Precedes(lane, x, s[0])
    requires RankedWith(lane, e, Insert(lane, x, s[1..])) == RankedWith(lane, e, s[1..]) + (if SameRank(lane, x, e) then [x] else [])
    ensures RankedWith(lane, e, Insert(lane, x, s)) == RankedWith(lane, e, s) + (if SameRank(lane, x, e) then [x] else [])
  {
    assert Insert(lane, x, s) == [s[0]] + Insert(lane, x, s[1..]);
    SameHeadRanks(lane, e, Insert(lane, x, s[1..]), s, if SameRank(lane, x, e) then [x] else []);
  }

  /** Insertion puts `x` after every entry of its rank already in place. */
  lemma {:induction false} InsertKeepsRanks(lane: Lane, x: Entry, s: seq<Entry>, e: Entry)
    requires Sorted(lane, s)
    ensures RankedWith(lane, e, Insert(lane, x, s)) == RankedWith(lane, e, s) + (if SameRank(lane, x, e) then [x] else [])
    decreases |s|
  {
    if |s| == 0 {
      InsertEmptyRanks(lane, x, e);
    } else if Precedes(lane, x, s[0]) {
      InsertFrontRanks(lane, x, s, e);
    } else {
      SortedTail(lane, s);
      InsertKeepsRanks(lane, x, s[1..], e);
      InsertPastHeadRanks(lane, x, s, e);
    }
  }

  lemma InsertLastKeepsRanks(lane: Lane, xs: seq<Entry>, sorted: seq<Entry>)
    requires |xs| > 0 && Sorted(lane, sorted)
    requires forall e :: RankedWith(lane, e, sorted) == RankedWith(lane, e, xs[..|xs| - 1])
    ensures forall e :: RankedWith(lane, e, Insert(lane, xs[|xs| - 1], sorted)) == RankedWith(lane, e, xs)
  {
    var x := xs[|xs| - 1];
    assert xs == xs[..|xs| - 1] + [x];
    forall e
      ensures RankedWith(lane, e, Insert(lane, x, sorted)) == RankedWith(lane, e, xs)
    {
      InsertKeepsRanks(lane, x, sorted, e);
      RankedSnoc(lane, e, xs[..|xs| - 1], x);
    }
  }

  /** A stable insertion sort with the lane's comparator. This is what
      `Array.prototype.sort` produces whenever the comparator is a consistent
      order: always in the normal lane, and in the time lane when every entry
      carries a time. With untimed entries in the time lane the comparator is
      inconsistent and the engine's order is implementation-defined; this sort
      is then only one admissible outcome. Entries of equal rank keep their
      input order, as the stable `Array.prototype.sort` keeps them. */
  function Sort(lane: Lane, xs: seq<Entry>): (r: seq<Entry>)
    ensures multiset(r) == multiset(xs)
    ensures Sorted(lane, r)
    ensures forall e :: RankedWith(lane, e, r) == RankedWith(lane, e, xs)
  {
    if |xs| == 0 then []
    else
      var sorted := Sort(lane, xs[..|xs| - 1]);
      InsertSorted(lane, xs[|xs| - 1], sorted);
      InsertLastKeepsRanks(lane, xs, sorted);
      MultisetSnoc(xs);
      Insert(lane, xs[|xs| - 1], sorted)
  }

  /** The entries shown in `lane` on `day`, in input order. */
  function InLane(xs: seq<Entry>, day: string, lane: Lane): (r: seq<Entry>)
    ensures forall e :: e in r <==> e in xs && LaneOf(e, day) == Some(lane)
    ensures multiset(r) <= multiset(xs)
  {
    if |xs| == 0 then []
    else
      var rest := InLane(xs[1..], day, lane);
      assert xs == [xs[0]] + xs[1..];
      if LaneOf(xs[0], day) == Some(lane) then [xs[0]] + rest else rest
  }

  /** Both queues of the group screen, each sorted as `Sort` describes. */
  function Classify(xs: seq<Entry>, day: string): (r: (seq<Entry>, seq<Entry>))
    ensures multiset(r.0) == multiset(InLane(xs, day, Normal))
    ensures multiset(r.1) == multiset(InLane(xs, day, TimeSlot))
    ensures Sorted(Normal, r.0) && Sorted(TimeSlot, r.1)
  {
    (Sort(Normal, InLane(xs, day, Normal)), Sort(TimeSlot, InLane(xs, day, TimeSlot)))
  }

  /** An entry shows in the normal lane exactly when it is present, not absent,
      and an A/C reservation on 11/1 or a B/D reservation on 11/2. */
  lemma NormalLaneMembership(xs: seq<Entry>, day: string, e: Entry)
    ensures e in Classify(xs, day).0 <==>
      && e in xs && !e.absent && |e.id| > 0
      && ((day == Nov1 && e.id[0] in {'A', 'C'}) || (day == Nov2 && e.id[0] in {'B', 'D'}))
  {
    var r := Classify(xs, day).0;
    assert e in r <==> e in multiset(r);
    assert e in InLane(xs, day, Normal) <==> e in multiset(InLane(xs, day, Normal));
  }

  /** An entry shows in the time-slot lane exactly when it is present, not
      absent, and an X reservation on 11/1 or a Y reservation on 11/2. */
  lemma TimeLaneMembership(xs: seq<Entry>, day: string, e: Entry)
    ensures e in Classify(xs, day).1 <==>
      && e in xs && !e.absent && |e.id| > 0
      && ((day == Nov1 && e.id[0] == 'X') || (day == Nov2 && e.id[0] == 'Y'))
  {
    var r := Classify(xs, day).1;
    assert e in r <==> e in multiset(r);
    assert e in InLane(xs, day, TimeSlot) <==> e in multiset(InLane(xs, day, TimeSlot));
  }

  /** The normal lane lists every priority entry before every other one, and
      entries of equal priority by ascending creation time. */
  lemma NormalLaneOrder(xs: seq<Entry>, day: string, i: nat, j: nat)
    requires i < j < |Classify(xs, day).0|
    ensures var q := Classify(xs, day).0;
      && (q[j].priority ==> q[i].priority)
      && (q[i].priority == q[j].priority ==> q[i].createdAt <= q[j].createdAt)
  {
  }

  /** When every entry of the time-slot lane carries a time, as every X/Y
      reservation the server creates does, the lane is in ascending time
      order. */
  lemma TimeLaneOrder(xs: seq<Entry>, day: string, i: nat, j: nat)
    requires forall k :: 0 <= k < |Classify(xs, day).1| ==> Classify(xs, day).1[k].time != ""
    requires i < j < |Classify(xs, day).1|
    ensures var q := Classify(xs, day).1;
      q[i].time == q[j].time || Strings.Less(q[i].time, q[j].time)
  {
    var q := Classify(xs, day).1;
    if q[i].time != q[j].time {
      Strings.LessTotal(q[i].time, q[j].time);
    }
  }
}

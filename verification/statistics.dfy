/** The counting pass of app.py `statistics`: every reservation of the day is
    counted once in the total, once in exactly one of visited / cancelled /
    waiting (any status other than 1 or 2 counts as waiting), and once under
    its category letter. */
module Statistics {
  import opened Snapshot

  datatype Stats = Stats(total: nat, visited: nat, cancelled: nat, waiting: nat, byType: map<char, nat>)

  /** The reservations among `ids` that belong to `date`. */
  function OnDay(res: map<string, Reservation>, ids: set<string>, date: string): set<string> {
    set id | id in ids && id in res && DayOf(id, res[id]) == date
  }

  function WithStatus(res: map<string, Reservation>, ids: set<string>, status: int): set<string> {
    set id | id in ids && id in res && res[id].status == status
  }

  function StillWaiting(res: map<string, Reservation>, ids: set<string>): set<string> {
    set id | id in ids && id in res && res[id].status != Visited && res[id].status != Cancelled
  }

  function OfKind(ids: set<string>, t: char): set<string> {
    set id | id in ids && Kind(id) == t
  }

  function Kinds(ids: set<string>): set<char> {
    set id | id in ids :: Kind(id)
  }

  /** `st` holds the counts of the reservations in `day`. */
  ghost predicate Summarizes(res: map<string, Reservation>, day: set<string>, st: Stats) {
    && st.total == |day|
    && st.visited == |WithStatus(res, day, Visited)|
    && st.cancelled == |WithStatus(res, day, Cancelled)|
    && st.waiting == |StillWaiting(res, day)|
    && st.byType.Keys == Kinds(day)
    && (forall t :: t in st.byType ==> st.byType[t] == |OfKind(day, t)|)
  }

  /** The loop body of the source for one reservation of the day. */
  function Tally(st: Stats, id: string, r: Reservation): Stats {
    var t := Kind(id);
    var before := if t in st.byType then st.byType[t] else 0;
    var counted := st.(total := st.total + 1, byType := st.byType[t := before + 1]);
    if r.status == Visited then counted.(visited := st.visited + 1)
    else if r.status == Cancelled then counted.(cancelled := st.cancelled + 1)
    else counted.(waiting := st.waiting + 1)
  }

  lemma KindsStep(day: set<string>, id: string)
    ensures Kinds(day + {id}) == Kinds(day) + {Kind(id)}
  {
  }

  lemma OfKindStep(day: set<string>, id: string, u: char)
    requires id !in day
    ensures |OfKind(day + {id}, u)| == |OfKind(day, u)| + (if u == Kind(id) then 1 else 0)
  {
    if u == Kind(id) {
      assert OfKind(day + {id}, u) == OfKind(day, u) + {id};
    } else {
      assert OfKind(day + {id}, u) == OfKind(day, u);
    }
  }

  lemma WithStatusStep(res: map<string, Reservation>, day: set<string>, id: string, status: int)
    requires id in res && id !in day
    ensures |WithStatus(res, day + {id}, status)| == |WithStatus(res, day, status)| + (if res[id].status == status then 1 else 0)
  {
    if res[id].status == status {
      assert WithStatus(res, day + {id}, status) == WithStatus(res, day, status) + {id};
    } else {
      assert WithStatus(res, day + {id}, status) == WithStatus(res, day, status);
    }
  }

  lemma StillWaitingStep(res: map<string, Reservation>, day: set<string>, id: string)
    requires id in res && id !in day
    ensures |StillWaiting(res, day + {id})| == |StillWaiting(res, day)|
      + (if res[id].status != Visited && res[id].status != Cancelled then 1 else 0)
  {
    if res[id].status != Visited && res[id].status != Cancelled {
      assert StillWaiting(res, day + {id}) == StillWaiting(res, day) + {id};
    } else {
      assert StillWaiting(res, day + {id}) == StillWaiting(res, day);
    }
  }

  lemma TallyStep(res: map<string, Reservation>, day: set<string>, st: Stats, id: string)
    requires id in res && id !in day
    requires Summarizes(res, day, st)
    ensures Summarizes(res, day + {id}, Tally(st, id, res[id]))
  {
    KindsStep(day, id);
    forall u | u in Tally(st, id, res[id]).byType
      ensures Tally(st, id, res[id]).byType[u] == |OfKind(day + {id}, u)|
    {
      OfKindStep(day, id, u);
    }
    WithStatusStep(res, day, id, Visited);
    WithStatusStep(res, day, id, Cancelled);
    StillWaitingStep(res, day, id);
  }

  lemma OnDayStep(res: map<string, Reservation>, seen: set<string>, id: string, date: string)
    requires id in res
    ensures OnDay(res, seen + {id}, date) == OnDay(res, seen, date) + (if DayOf(id, res[id]) == date then {id} else {})
  {
  }

  lemma NothingSummarized(res: map<string, Reservation>, date: string)
    ensures Summarizes(res, OnDay(res, {}, date), Stats(0, 0, 0, 0, map[]))
  {
    assert OnDay(res, {}, date) == {};
    assert Kinds({}) == {};
  }

  /** One iteration of the counting loop keeps the summary in step. */
  lemma VisitStep(res: map<string, Reservation>, seen: set<string>, id: string, date: string, st: Stats)
    requires id in res && id !in seen
    requires Summarizes(res, OnDay(res, seen, date), st)
    ensures Summarizes(res, OnDay(res, seen + {id}, date),
                       if DayOf(id, res[id]) == date then Tally(st, id, res[id]) else st)
  {
    OnDayStep(res, seen, id, date);
    if DayOf(id, res[id]) == date {
      TallyStep(res, OnDay(res, seen, date), st, id);
    }
  }

  /** Visited, cancelled and waiting partition the reservations of a day. */
  lemma StatusPartition(res: map<string, Reservation>, day: set<string>)
    requires day <= res.Keys
    ensures |WithStatus(res, day, Visited)| + |WithStatus(res, day, Cancelled)| + |StillWaiting(res, day)| == |day|
  {
    var v := WithStatus(res, day, Visited);
    var c := WithStatus(res, day, Cancelled);
    var w := StillWaiting(res, day);
    assert v !! c && (v + c) !! w;
    assert v + c + w == day;
  }

  lemma SummaryPartition(res: map<string, Reservation>, day: set<string>, st: Stats)
    requires day <= res.Keys
    requires Summarizes(res, day, st)
    ensures st.visited + st.cancelled + st.waiting == st.total
  {
    StatusPartition(res, day);
  }

  /** Moving one key from the unvisited to the visited set keeps the two a
      partition of all keys. */
  lemma MoveOne(seen: set<string>, rest: set<string>, id: string, all: set<string>)
    requires seen + rest == all && seen !! rest && id in rest
    ensures (seen + {id}) + (rest - {id}) == all && (seen + {id}) !! (rest - {id})
  {
  }

  /** `statistics` for one day: the loop over all reservation documents. */
  method ComputeStatistics(res: map<string, Reservation>, date: string) returns (st: Stats)
    ensures Summarizes(res, OnDay(res, res.Keys, date), st)
    ensures st.visited + st.cancelled + st.waiting == st.total
  {
    st := Stats(0, 0, 0, 0, map[]);
    var rest := res.Keys;
    ghost var seen: set<string> := {};
    NothingSummarized(res, date);
    while rest != {}
      invariant seen + rest == res.Keys && seen !! rest
      invariant Summarizes(res, OnDay(res, seen, date), st)
      decreases |rest|
    {
      var id :| id in rest;
      var next := if DayOf(id, res[id]) == date then Tally(st, id, res[id]) else st;
      VisitStep(res, seen, id, date, st);
      MoveOne(seen, rest, id, res.Keys);
      st := next;
      rest := rest - {id};
      seen := seen + {id};
    }
    SummaryPartition(res, OnDay(res, seen, date), st);
  }
}

/** The server's view of the record store (app.py): reservation documents keyed
    by id, and one group collection per event day keyed by group number.

    Every scheduler operation takes a `Store` snapshot and returns the snapshot
    its writes produce. Python truthiness is kept: a missing, `None` or `0`
    group field is the number 0, and a missing or empty `date` field is "". */
module Snapshot {
  import opened Wrappers

  const Day1: string := "2025-11-01"
  const Day2: string := "2025-11-02"

  // Group status codes.
  const GroupWaiting: int := 0
  const GroupCalling: int := 1
  const GroupCompleted: int := 2

  // Reservation status codes.
  const Waiting: int := 0
  const Visited: int := 1
  const Cancelled: int := 2
  const Absent: int := 3

  /** The largest party a group may hold. */
  const Capacity: int := 4

  /** A reservation document. `time` is the scheduled slot of a VIP (X/Y)
      reservation in minutes, on the same clock as the `now` operations take. */
  datatype Reservation = Reservation(
    count: int,
    status: int,
    priority: bool,
    group: int,
    date: string,
    time: Option<int>)

  /** A group document: its status and the ordered `reservation` id list. */
  datatype Group = Group(status: int, members: seq<string>, isPriority: bool)

  /** The collection `group` (day 1) or `group2` (any other day). */
  datatype Collection = First | Second

  datatype Store = Store(
    reservations: map<string, Reservation>,
    first: map<int, Group>,
    second: map<int, Group>)
  {
    function Groups(c: Collection): map<int, Group> {
      match c
      case First => first
      case Second => second
    }

    /** Replaces one group collection, keeping everything else. */
    function WithGroups(c: Collection, gs: map<int, Group>): (s: Store)
      ensures s.Groups(c) == gs
      ensures s.reservations == reservations
      ensures forall d :: d != c ==> s.Groups(d) == Groups(d)
    {
      match c
      case First => this.(first := gs)
      case Second => this.(second := gs)
    }
  }

  /** The category letter of a reservation id; an empty id counts as 'X'. */
  function Kind(id: string): char {
    if |id| > 0 then id[0] else 'X'
  }

  /** The day a reservation id belongs to when its record names no date. */
  function DefaultDay(id: string): (d: string)
    ensures d == Day1 <==> Kind(id) in {'A', 'C', 'X'}
    ensures d == Day1 || d == Day2
  {
    if Kind(id) in {'A', 'C', 'X'} then Day1 else Day2
  }

  /** The day of a reservation: an explicit `date` wins over the id's prefix. */
  function DayOf(id: string, r: Reservation): (d: string)
    ensures r.date != "" ==> d == r.date
    ensures r.date == "" ==> (d == Day1 <==> Kind(id) in {'A', 'C', 'X'})
    ensures r.date == "" ==> d == Day1 || d == Day2
  {
    if r.date != "" then r.date else DefaultDay(id)
  }

  /** The group collection serving a day. */
  function CollectionFor(date: string): (c: Collection)
    ensures c == First <==> date == Day1
  {
    if date == Day1 then First else Second
  }

  /** The day the scans read (explicit date first) and the day the refill and
      completion checks read (id prefix only) agree exactly when the record
      carries no date or names its prefix's own day. */
  lemma DayOfMatchesDefault(id: string, r: Reservation)
    ensures DayOf(id, r) == DefaultDay(id) <==> r.date == "" || r.date == DefaultDay(id)
  {
  }

  /** Without a date field, A, C and X reservations are served from the first
      collection and every other category from the second. */
  lemma DefaultCollection(id: string)
    ensures CollectionFor(DefaultDay(id)) == First <==> Kind(id) in {'A', 'C', 'X'}
  {
  }

  /** Every group document of a collection is named by a non-negative number,
      as every number the allocators hand out is. */
  predicate NonNegativeNumbers(groups: map<int, Group>) {
    forall n :: n in groups ==> n >= 0
  }

  /** Sum of the `count` of the listed reservations that exist, each occurrence
      counted, as the placement loops compute a group's current headcount. */
  function Headcount(members: seq<string>, res: map<string, Reservation>): int {
    if |members| == 0 then 0
    else
      var last := members[|members| - 1];
      Headcount(members[..|members| - 1], res) + (if last in res then res[last].count else 0)
  }

  /** Sum of the `count` of listed reservations that exist and still wait. */
  function WaitingHeadcount(members: seq<string>, res: map<string, Reservation>): int {
    if |members| == 0 then 0
    else
      var last := members[|members| - 1];
      WaitingHeadcount(members[..|members| - 1], res)
        + (if last in res && res[last].status == Waiting then res[last].count else 0)
  }

  /** Appending an id adds its count, if its document exists. */
  lemma HeadcountAppend(members: seq<string>, id: string, res: map<string, Reservation>)
    ensures Headcount(members + [id], res) == Headcount(members, res) + (if id in res then res[id].count else 0)
  {
    assert (members + [id])[..|members|] == members;
  }

  /** Writing a reservation that is not listed leaves a list's headcount alone. */
  lemma {:induction false} HeadcountUnlisted(members: seq<string>, res: map<string, Reservation>, id: string, r: Reservation)
    requires id !in members
    ensures Headcount(members, res[id := r]) == Headcount(members, res)
  {
    if |members| > 0 {
      HeadcountUnlisted(members[..|members| - 1], res, id, r);
    }
  }

  lemma WaitingHeadcountAppend(members: seq<string>, id: string, res: map<string, Reservation>)
    ensures WaitingHeadcount(members + [id], res) ==
      WaitingHeadcount(members, res) + (if id in res && res[id].status == Waiting then res[id].count else 0)
  {
    assert (members + [id])[..|members|] == members;
  }

  /** Only `count` and `status` matter to the waiting headcount. */
  lemma {:induction false} WaitingHeadcountDependsOnCountAndStatus(members: seq<string>, r1: map<string, Reservation>, r2: map<string, Reservation>)
    requires r1.Keys == r2.Keys
    requires forall k :: k in r1 ==> r1[k].count == r2[k].count && r1[k].status == r2[k].status
    ensures WaitingHeadcount(members, r1) == WaitingHeadcount(members, r2)
  {
    if |members| > 0 {
      WaitingHeadcountDependsOnCountAndStatus(members[..|members| - 1], r1, r2);
    }
  }

  /** No id is listed twice. */
  predicate Distinct(xs: seq<string>) {
    forall i, j :: 0 <= i < j < |xs| ==> xs[i] != xs[j]
  }
}

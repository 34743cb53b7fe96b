/** The absent list of script.js `loadAbsentList`: every reservation flagged
    absent is listed with the whole minutes since it was marked, flagged with
    a warning from fifteen minutes on, and those are sent for deletion. */
module Absence {
  import opened Wrappers

  const MsPerMinute: int := 60000

  /** Minutes after which an absent reservation is flagged and deleted. */
  const WarnAfter: int := 15

  /** A reservation as the client receives it; `absentAt` is the instant (ms)
      it was marked absent, `None` when the field is missing. */
  datatype Absentee = Absentee(id: string, count: int, absent: bool, absentAt: Option<int>)

  /** One card of the absent list. `minutes` is `None` where the source
      computes `NaN` (no timestamp). */
  datatype Row = Row(id: string, count: int, minutes: Option<int>, warning: bool)

  /** `Math.floor((now - absentAt) / 1000 / 60)`. */
  function ElapsedMinutes(at: Option<int>, now: int): Option<int> {
    match at
    case None => None
    case Some(t) => Some((now - t) / MsPerMinute)
  }

  /** The card of one absent reservation: whole minutes rounded down, and the
      warning from fifteen minutes, that is 900000 ms, on. */
  function RowOf(x: Absentee, now: int): (r: Row)
    ensures r.id == x.id && r.count == x.count
    ensures r.warning <==> r.minutes.Some? && r.minutes.value >= WarnAfter
    ensures r.warning <==> x.absentAt.Some? && now - x.absentAt.value >= WarnAfter * MsPerMinute
  {
    var m := ElapsedMinutes(x.absentAt, now);
    Row(x.id, x.count, m, m.Some? && m.value >= WarnAfter)
  }

  /** The cards, in list order, and the ids sent for deletion, in the order
      their timers fire. */
  function AbsentList(xs: seq<Absentee>, now: int): (r: (seq<Row>, seq<string>))
    ensures forall row :: row in r.0 <==> exists x :: x in xs && x.absent && row == RowOf(x, now)
    ensures forall id :: id in r.1 <==> exists row :: row in r.0 && row.id == id && row.warning
    ensures |r.0| <= |xs|
  {
    if |xs| == 0 then ([], [])
    else
      var rest := AbsentList(xs[1..], now);
      assert forall x :: x in xs <==> x == xs[0] || x in xs[1..];
      if xs[0].absent then
        var row := RowOf(xs[0], now);
        ([row] + rest.0, if row.warning then [row.id] + rest.1 else rest.1)
      else rest
  }

  /** A reservation is sent for deletion exactly when it is listed as absent
      and its mark is at least fifteen minutes old. */
  lemma DeletedIffOverdue(xs: seq<Absentee>, now: int, x: Absentee)
    requires x in xs
    requires forall y :: y in xs && y.id == x.id ==> y == x
    ensures x.id in AbsentList(xs, now).1 <==>
      x.absent && x.absentAt.Some? && now - x.absentAt.value >= WarnAfter * MsPerMinute
  {
    var r := AbsentList(xs, now);
    if x.absent {
      assert RowOf(x, now) in r.0;
    }
  }
}

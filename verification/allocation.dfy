/** Fresh group numbers (app.py `get_next_available_group_number`,
    `get_next_group_number`, and the same computation inlined in
    `create_priority_group`). Odd numbers serve pre-booked A/B reservations,
    even numbers walk-ins. */
module Allocation {
  import FiniteSets

  /** The source's defensive retry loop: step `n` by `step` while it is taken. */
  function SkipTaken(n: int, existing: set<int>, step: nat): (r: int)
    requires step > 0
    ensures r !in existing
    ensures r >= n
    ensures n !in existing ==> r == n
    ensures step == 2 ==> r % 2 == n % 2
    decreases if n in existing then FiniteSets.Max(existing) - n + 1 else 0
  {
    if n in existing then SkipTaken(n + step, existing, step) else n
  }

  /** `get_next_available_group_number`: 1 for an empty collection, otherwise
      one past the largest number in use. */
  function NextAvailable(existing: set<int>): (n: int)
    ensures existing == {} ==> n == 1
    ensures forall e :: e in existing ==> e < n
    ensures existing != {} ==> n - 1 in existing
    ensures n !in existing
  {
    if existing == {} then 1
    else SkipTaken(FiniteSets.Max(existing) + 1, existing, 1)
  }

  /** `get_next_group_number`: like `NextAvailable`, but odd for a pre-booked
      reservation and even for a walk-in. */
  function NextForKind(existing: set<int>, isReserved: bool): (n: int)
    ensures existing == {} ==> n == (if isReserved then 1 else 2)
    ensures forall e :: e in existing ==> e < n
    ensures n % 2 == 1 <==> isReserved
    ensures existing != {} ==> n - 1 in existing || n - 2 in existing
    ensures n !in existing
  {
    if existing == {} then (if isReserved then 1 else 2)
    else
      var next := FiniteSets.Max(existing) + 1;
      var matched := if isReserved == (next % 2 == 0) then next + 1 else next;
      SkipTaken(matched, existing, 2)
  }
}

/** Reservation numbers (app.py `generate_reservation_id`): the category letter
    followed by one more than the largest number already issued for it,
    zero-padded to four digits. */
module ReservationIds {
  import opened Wrappers
  import Decimal
  import FiniteSets

  predicate StartsWith(s: string, prefix: string) {
    |prefix| <= |s| && s[..|prefix|] == prefix
  }

  /** `res_id[1:]`. */
  function Suffix(id: string): string {
    if |id| == 0 then "" else id[1..]
  }

  /** The numbers already issued under `kind`: ids that start with it and whose
      text after the first character parses as a number. */
  function Issued(ids: set<string>, kind: string): (ns: set<int>)
    ensures forall id :: id in ids && StartsWith(id, kind) && Decimal.Parse(Suffix(id)).Some? ==>
      Decimal.Parse(Suffix(id)).value in ns
    ensures forall n :: n in ns ==> n >= 0
    ensures forall n :: n in ns ==>
      exists id :: id in ids && StartsWith(id, kind) && Decimal.Parse(Suffix(id)) == Some(n)
  {
    set id | id in ids && StartsWith(id, kind) && Decimal.Parse(Suffix(id)).Some? :: Decimal.Parse(Suffix(id)).value as int
  }

  /** The next number to issue under `kind`. */
  function NextNumber(ids: set<string>, kind: string): (n: nat)
    ensures n >= 1
    ensures forall m :: m in Issued(ids, kind) ==> m < n
    ensures n == 1 || n - 1 in Issued(ids, kind)
  {
    var issued := Issued(ids, kind);
    if issued == {} then 1 else FiniteSets.Max(issued) + 1
  }

  /** `generate_reservation_id(kind)` over the ids currently stored. */
  function GenerateReservationId(ids: set<string>, kind: string): (r: string)
    ensures StartsWith(r, kind)
    ensures |r| >= |kind| + 4
    ensures var digits := |Decimal.Show(NextNumber(ids, kind))|;
      |r| == |kind| + (if digits >= 4 then digits else 4)
    ensures |kind| == 1 ==> Decimal.Parse(Suffix(r)) == Some(NextNumber(ids, kind))
  {
    var r := kind + Decimal.ZeroPad(Decimal.Show(NextNumber(ids, kind)), 4);
    assert r[..|kind|] == kind;
    if |kind| == 1 then
      assert Suffix(r) == Decimal.ZeroPad(Decimal.Show(NextNumber(ids, kind)), 4);
      Decimal.PadRoundTrip(NextNumber(ids, kind), 4);
      r
    else r
  }

  /** With a one-letter category the generated id is not already in use, and
      its number is larger than every number issued before under that letter. */
  lemma GeneratedIdIsFresh(ids: set<string>, kind: string)
    requires |kind| == 1
    ensures GenerateReservationId(ids, kind) !in ids
    ensures forall m :: m in Issued(ids, kind) ==>
      m < Decimal.Parse(Suffix(GenerateReservationId(ids, kind))).value
  {
  }

  /** Adding an id whose number parses adds exactly that number. */
  lemma IssuedGrows(ids: set<string>, kind: string, r: string, n: nat)
    requires StartsWith(r, kind) && Decimal.Parse(Suffix(r)) == Some(n)
    ensures Issued(ids + {r}, kind) == Issued(ids, kind) + {n}
  {
    var ids' := ids + {r};
    forall x | x in Issued(ids', kind)
      ensures x in Issued(ids, kind) + {n}
    {
      var id :| id in ids' && StartsWith(id, kind) && Decimal.Parse(Suffix(id)) == Some(x);
      if id != r {
        assert id in ids;
      }
    }
  }

  /** Issuing the generated id makes the next one one number higher. */
  lemma NextIdAdvances(ids: set<string>, kind: string)
    requires |kind| == 1
    ensures NextNumber(ids + {GenerateReservationId(ids, kind)}, kind) == NextNumber(ids, kind) + 1
  {
    StoredNextAdvances(ids, kind, GenerateReservationId(ids, kind), NextNumber(ids, kind));
  }

  /** Storing an id that carries the next number raises the next number by
      one. */
  lemma StoredNextAdvances(ids: set<string>, kind: string, id: string, n: nat)
    requires StartsWith(id, kind) && Decimal.Parse(Suffix(id)) == Some(n)
    requires n == NextNumber(ids, kind)
    ensures NextNumber(ids + {id}, kind) == n + 1
  {
    IssuedGrows(ids, kind, id, n);
    assert forall m :: m in Issued(ids + {id}, kind) ==> m <= n;
    NextAfterLargest(ids + {id}, kind, n);
  }

  /** When `n` is the largest number issued, the next one is `n + 1`. */
  lemma NextAfterLargest(ids: set<string>, kind: string, n: int)
    requires n in Issued(ids, kind)
    requires forall m :: m in Issued(ids, kind) ==> m <= n
    ensures NextNumber(ids, kind) == n + 1
  {
  }
}

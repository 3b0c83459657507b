/** What the thread protocols share: locks and the table the dishes come from. */
module Sync {
  /** A mutex, and which thread holds it. */
  datatype Lock = Free | HeldBy(who: nat)

  /** `food_on_table`: one dish fewer, down to none; the number left is also the number of the dish. */
  function TakeDish(food: nat): nat {
    if food > 0 then food - 1 else food
  }

  /** How many dishes have been handed out: dish number 0 means "nothing left" and is not a dish. */
  function Served(total: nat, food: nat): int {
    if total == 0 then 0 else total - (if food == 0 then 1 else food)
  }

  /** The index before `i` on a ring of `n`. */
  function Before(i: nat, n: nat): (j: nat)
    requires i < n
    ensures j < n
  {
    if i == 0 then n - 1 else i - 1
  }

  /** The index after `i` on a ring of `n`. */
  function After(i: nat, n: nat): (j: nat)
    requires i < n
    ensures j < n && Before(j, n) == i
  {
    if i + 1 == n then 0 else i + 1
  }

  /** A property that passes from each place of a ring to the one before holds everywhere. */
  lemma {:induction false} RoundTheRing(n: nat, p: nat -> bool, start: nat, i: nat)
    requires start < n && i < n && p(start)
    requires forall j :: 0 <= j < n && p(j) ==> p(Before(j, n))
    ensures p(i)
    decreases if start >= i then start - i else start + n - i
  {
    if start != i {
      RoundTheRing(n, p, Before(start, n), i);
    }
  }
}

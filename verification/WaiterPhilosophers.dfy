/** Dining philosophers behind a waiter who admits all but one of them (arkhipov/10/main.c). */
module WaiterPhilosophers {
  import opened Sums
  import opened Sync

  /** The next action of a philosopher. */
  datatype Pc =
    | LockFood | TakeFood | UnlockFood(dish: nat)
    | WaitTicket | TakeLeft | TakeRight | Eat | DropLeft | DropRight | PostTicket
    | Gone

  datatype State = State(forks: seq<Lock>, tickets: nat, food: nat, foodLock: Lock, pcs: seq<Pc>, meals: nat)

  function RightFork(i: nat): nat { i }

  function LeftFork(i: nat, n: nat): nat
    requires i < n
  {
    After(i, n)
  }

  predicate Shape(s: State) {
    |s.pcs| == |s.forks| >= 2
  }

  /** Whether philosopher `i` can act; the others block on a lock or the waiter, or have left. */
  predicate Enabled(s: State, i: nat)
    requires Shape(s) && i < |s.pcs|
  {
    match s.pcs[i]
    case LockFood => s.foodLock.Free?
    case WaitTicket => s.tickets > 0
    case TakeLeft => s.forks[LeftFork(i, |s.pcs|)].Free?
    case TakeRight => s.forks[RightFork(i)].Free?
    case Gone => false
    case _ => true
  }

  function Goto(s: State, i: nat, pc: Pc): (s': State)
    requires i < |s.pcs|
  {
    s.(pcs := s.pcs[i := pc])
  }

  function Act(s: State, i: nat): (s': State)
    requires Shape(s) && i < |s.pcs| && Enabled(s, i)
    ensures Shape(s') && |s'.pcs| == |s.pcs|
  {
    var left, right := LeftFork(i, |s.pcs|), RightFork(i);
    match s.pcs[i]
    case LockFood => Goto(s, i, TakeFood).(foodLock := HeldBy(i))
    case TakeFood => Goto(s, i, UnlockFood(TakeDish(s.food))).(food := TakeDish(s.food))
    case UnlockFood(dish) => Goto(s, i, if dish != 0 then WaitTicket else Gone).(foodLock := Free)
    case WaitTicket => Goto(s, i, TakeLeft).(tickets := s.tickets - 1)
    case TakeLeft => Goto(s, i, TakeRight).(forks := s.forks[left := HeldBy(i)])
    case TakeRight => Goto(s, i, Eat).(forks := s.forks[right := HeldBy(i)])
    case Eat => Goto(s, i, DropLeft).(meals := s.meals + 1)
    case DropLeft => Goto(s, i, DropRight).(forks := s.forks[left := Free])
    case DropRight => Goto(s, i, PostTicket).(forks := s.forks[right := Free])
    case PostTicket => Goto(s, i, LockFood).(tickets := s.tickets + 1)
  }

  function Init(n: nat, food: nat): (s: State)
    requires n >= 2
    ensures Shape(s)
  {
    State(seq(n, _ => Free), n - 1, food, Free, seq(n, _ => LockFood), 0)
  }

  /** A schedule says which philosopher acts next; every run is the run of some schedule. */
  predicate Runs(s: State, schedule: seq<nat>)
    requires Shape(s)
    decreases |schedule|
  {
    schedule == [] ||
    (schedule[0] < |s.pcs| && Enabled(s, schedule[0]) && Runs(Act(s, schedule[0]), schedule[1..]))
  }

  function Run(s: State, schedule: seq<nat>): (s': State)
    requires Shape(s) && Runs(s, schedule)
    ensures Shape(s') && |s'.pcs| == |s.pcs|
    decreases |schedule|
  {
    if schedule == [] then s else Run(Act(s, schedule[0]), schedule[1..])
  }

  // ---------- the invariant ----------

  predicate HoldsLeft(pc: Pc) { pc.TakeRight? || pc.Eat? || pc.DropLeft? }
  predicate HoldsRight(pc: Pc) { pc.Eat? || pc.DropLeft? || pc.DropRight? }
  predicate HoldsFood(pc: Pc) { pc.TakeFood? || pc.UnlockFood? }

  function Tickets(pc: Pc): int {
    if HoldsLeft(pc) || HoldsRight(pc) || pc.TakeLeft? || pc.PostTicket? then 1 else 0
  }

  /** A dish taken from the table and not yet eaten. */
  function DishInHand(pc: Pc): int {
    if (pc.UnlockFood? && pc.dish != 0) || pc.WaitTicket? || pc.TakeLeft? || pc.TakeRight? || pc.Eat? then 1 else 0
  }

  predicate FoundNothing(pc: Pc) { pc.Gone? || pc == UnlockFood(0) }

  /** Each fork is held by exactly those whose next action says so. */
  ghost predicate ForksHeld(s: State)
    requires Shape(s)
  {
    forall j, i :: 0 <= j < |s.forks| && 0 <= i < |s.pcs| ==>
      (s.forks[j] == HeldBy(i) <==>
        (j == LeftFork(i, |s.pcs|) && HoldsLeft(s.pcs[i])) || (j == RightFork(i) && HoldsRight(s.pcs[i])))
  }

  ghost predicate HoldersExist(s: State) {
    forall j :: 0 <= j < |s.forks| && s.forks[j].HeldBy? ==> s.forks[j].who < |s.pcs|
  }

  ghost predicate FoodLockHeld(s: State) {
    && (forall i :: 0 <= i < |s.pcs| ==> (s.foodLock == HeldBy(i) <==> HoldsFood(s.pcs[i])))
    && (s.foodLock.HeldBy? ==> s.foodLock.who < |s.pcs|)
  }

  ghost predicate Inv(total: nat, s: State) {
    && Shape(s) && ForksHeld(s) && HoldersExist(s) && FoodLockHeld(s)
    && s.tickets + Sum(s.pcs, Tickets) == |s.pcs| - 1
    && (forall i :: 0 <= i < |s.pcs| && FoundNothing(s.pcs[i]) ==> s.food == 0)
    && s.food <= total && s.meals + Sum(s.pcs, DishInHand) == Served(total, s.food)
  }

  lemma InitInv(n: nat, food: nat)
    requires n >= 2
    ensures Inv(food, Init(n, food))
  {
    var s := Init(n, food);
    SumBounds(s.pcs, Tickets, 0, 0);
    SumBounds(s.pcs, DishInHand, 0, 0);
  }

  lemma ActForks(s: State, i: nat)
    requires Shape(s) && i < |s.pcs| && Enabled(s, i) && ForksHeld(s) && HoldersExist(s)
    ensures ForksHeld(Act(s, i)) && HoldersExist(Act(s, i))
  {
  }

  lemma ActInv(total: nat, s: State, i: nat)
    requires Inv(total, s) && i < |s.pcs| && Enabled(s, i)
    ensures Inv(total, Act(s, i))
  {
    var s' := Act(s, i);
    ActForks(s, i);
    SumUpdate(s.pcs, i, s'.pcs[i], Tickets);
    SumUpdate(s.pcs, i, s'.pcs[i], DishInHand);
  }

  // ---------- no deadlock ----------

  /** Were everyone stuck, whoever lacks only the right fork would find its owner lacking only the right fork. */
  lemma StuckRing(total: nat, s: State, k: nat)
    requires Inv(total, s) && forall j :: 0 <= j < |s.pcs| ==> !Enabled(s, j)
    requires k < |s.pcs| && Tickets(s.pcs[k]) == 1
    ensures s.pcs[k].TakeRight? && s.pcs[Before(k, |s.pcs|)].TakeRight?
  {
    var n := |s.pcs|;
    assert !Enabled(s, k);
    var fork := if s.pcs[k].TakeLeft? then LeftFork(k, n) else RightFork(k);
    assert s.forks[fork].HeldBy?;
    var w := s.forks[fork].who;
    assert w < n && !Enabled(s, w);
    assert HoldsLeft(s.pcs[w]) && fork == LeftFork(w, n);
    assert w == Before(fork, n);
  }

  /** As long as anyone is still at the table, someone can act. */
  lemma NoDeadlock(total: nat, s: State, i: nat)
    requires Inv(total, s) && i < |s.pcs| && !s.pcs[i].Gone?
    ensures exists j :: 0 <= j < |s.pcs| && Enabled(s, j)
  {
    var n := |s.pcs|;
    if s.foodLock.HeldBy? {
      assert HoldsFood(s.pcs[s.foodLock.who]) && Enabled(s, s.foodLock.who);
    } else if forall j :: 0 <= j < n ==> !Enabled(s, j) {
      assert !Enabled(s, i);
      var k := i;
      if s.pcs[i].WaitTicket? {
        assert s.tickets == 0;
        k := SumWitness(s.pcs, Tickets);
      }
      StuckRing(total, s, k);
      var p := (j: nat) => j < n && s.pcs[j].TakeRight?;
      forall j | 0 <= j < n && p(j)
        ensures p(Before(j, n))
      {
        StuckRing(total, s, j);
      }
      forall j | 0 <= j < n
        ensures Tickets(s.pcs[j]) == 1
      {
        RoundTheRing(n, p, k, j);
      }
      SumBounds(s.pcs, Tickets, 1, 1);
      assert false;
    }
  }

  // ---------- every run is finite ----------

  /** How many actions are left before the philosopher asks for the next dish and finds none. */
  function Rank(pc: Pc): int {
    match pc
    case UnlockFood(dish) => if dish != 0 then 11 else 1
    case WaitTicket => 10
    case TakeLeft => 9
    case TakeRight => 8
    case Eat => 7
    case DropLeft => 6
    case DropRight => 5
    case PostTicket => 4
    case LockFood => 3
    case TakeFood => 2
    case Gone => 0
  }

  ghost function Measure(s: State): int {
    10 * s.food + Sum(s.pcs, Rank)
  }

  lemma MeasureIsNatural(s: State)
    ensures Measure(s) >= 0
  {
    SumBounds(s.pcs, Rank, 0, 11);
  }

  lemma InitMeasure(n: nat, food: nat)
    requires n >= 2
    ensures Measure(Init(n, food)) == 10 * food + 3 * n
  {
    SumBounds(Init(n, food).pcs, Rank, 3, 3);
  }

  lemma ActDecreases(s: State, i: nat)
    requires Shape(s) && i < |s.pcs| && Enabled(s, i)
    ensures Measure(Act(s, i)) < Measure(s)
  {
    SumUpdate(s.pcs, i, Act(s, i).pcs[i], Rank);
  }

  lemma {:induction false} RunInv(total: nat, s: State, schedule: seq<nat>)
    requires Inv(total, s) && Runs(s, schedule)
    ensures Inv(total, Run(s, schedule))
    ensures |schedule| + Measure(Run(s, schedule)) <= Measure(s)
    decreases |schedule|
  {
    if schedule != [] {
      ActInv(total, s, schedule[0]);
      ActDecreases(s, schedule[0]);
      RunInv(total, Act(s, schedule[0]), schedule[1..]);
    }
  }

  lemma OneHolder(total: nat, s: State, i: nat, j: nat)
    requires Inv(total, s) && i < |s.pcs| && j < |s.pcs| && i != j && LeftFork(i, |s.pcs|) == RightFork(j)
    ensures !(HoldsLeft(s.pcs[i]) && HoldsRight(s.pcs[j]))
  {
    var fork := RightFork(j);
    assert s.forks[fork] == HeldBy(i) ==> s.forks[fork] != HeldBy(j);
  }

  lemma AtRest(total: nat, s: State)
    requires Inv(total, s) && forall i :: 0 <= i < |s.pcs| ==> !Enabled(s, i)
    ensures forall i :: 0 <= i < |s.pcs| ==> s.pcs[i].Gone?
    ensures s.meals == Served(total, 0)
  {
    forall i | 0 <= i < |s.pcs|
      ensures s.pcs[i].Gone?
    {
      if !s.pcs[i].Gone? {
        NoDeadlock(total, s, i);
      }
    }
    SumBounds(s.pcs, DishInHand, 0, 0);
    assert FoundNothing(s.pcs[0]);
  }

  /** Whatever the schedule: the run is short, tickets are conserved, no two philosophers hold one fork, and when
      nobody can act any more everybody has left after exactly the dishes that were served, `food - 1` of them. */
  lemma EveryRun(n: nat, food: nat, schedule: seq<nat>)
    requires n >= 2 && Runs(Init(n, food), schedule)
    ensures var s := Run(Init(n, food), schedule);
            && |schedule| <= 10 * food + 3 * n
            && s.tickets + Sum(s.pcs, Tickets) == n - 1
            && (forall i :: 0 <= i < n && HoldsRight(s.pcs[i]) ==> !HoldsLeft(s.pcs[Before(i, n)]))
            && ((forall i :: 0 <= i < n ==> !Enabled(s, i)) ==>
                  (forall i :: 0 <= i < n ==> s.pcs[i].Gone?) && s.meals == (if food == 0 then 0 else food - 1))
  {
    InitInv(n, food);
    InitMeasure(n, food);
    RunInv(food, Init(n, food), schedule);
    var s := Run(Init(n, food), schedule);
    MeasureIsNatural(s);
    forall i | 0 <= i < n && HoldsRight(s.pcs[i])
      ensures !HoldsLeft(s.pcs[Before(i, n)])
    {
      OneHolder(food, s, Before(i, n), i);
    }
    if forall i :: 0 <= i < n ==> !Enabled(s, i) {
      AtRest(food, s);
    }
  }
}

/** Dining philosophers with a shared state array: whoever puts the forks down grants them to hungry
    neighbours (tamplon/lab10/fast.c). */
module StatePhilosophers {
  import opened Sums
  import opened Sync

  datatype Mode = Thinking | Hungry | Eating

  /** The next action of a philosopher; from `SetHungry` to `PostAfterTake` and from `SetThinking` to
      `PostAfterPut` it is inside the section that `sem` protects. */
  datatype Pc =
    | LockFood | TakeFood | UnlockFood(dish: nat)
    | WaitToTake | SetHungry | TestSelf | PostAfterTake | WaitSelf
    | Eat
    | WaitToPut | SetThinking | TestNext | TestPrevious | PostAfterPut
    | Gone

  datatype State = State(modes: seq<Mode>, grants: seq<nat>, sem: nat, food: nat, foodLock: Lock, pcs: seq<Pc>, meals: nat)

  predicate Shape(s: State) {
    |s.pcs| == |s.modes| == |s.grants| >= 2
  }

  predicate Enabled(s: State, i: nat)
    requires Shape(s) && i < |s.pcs|
  {
    match s.pcs[i]
    case LockFood => s.foodLock.Free?
    case WaitToTake => s.sem > 0
    case WaitToPut => s.sem > 0
    case WaitSelf => s.grants[i] > 0
    case Gone => false
    case _ => true
  }

  /** `test`: philosopher `j` starts eating if hungry with no neighbour eating. */
  function Test(s: State, j: nat): (s': State)
    requires Shape(s) && j < |s.pcs|
    ensures Shape(s') && s'.pcs == s.pcs
  {
    var n := |s.pcs|;
    if s.modes[j] == Hungry && s.modes[After(j, n)] != Eating && s.modes[Before(j, n)] != Eating
    then s.(modes := s.modes[j := Eating], grants := s.grants[j := s.grants[j] + 1])
    else s
  }

  function Goto(s: State, i: nat, pc: Pc): (s': State)
    requires i < |s.pcs|
  {
    s.(pcs := s.pcs[i := pc])
  }

  function Act(s: State, i: nat): (s': State)
    requires Shape(s) && i < |s.pcs| && Enabled(s, i)
    ensures Shape(s') && |s'.pcs| == |s.pcs|
  {
    var n := |s.pcs|;
    match s.pcs[i]
    case LockFood => Goto(s, i, TakeFood).(foodLock := HeldBy(i))
    case TakeFood => Goto(s, i, UnlockFood(TakeDish(s.food))).(food := TakeDish(s.food))
    case UnlockFood(dish) => Goto(s, i, if dish != 0 then WaitToTake else Gone).(foodLock := Free)
    case WaitToTake => Goto(s, i, SetHungry).(sem := s.sem - 1)
    case SetHungry => Goto(s, i, TestSelf).(modes := s.modes[i := Hungry])
    case TestSelf => Goto(Test(s, i), i, PostAfterTake)
    case PostAfterTake => Goto(s, i, WaitSelf).(sem := s.sem + 1)
    case WaitSelf => Goto(s, i, Eat).(grants := s.grants[i := s.grants[i] - 1])
    case Eat => Goto(s, i, WaitToPut).(meals := s.meals + 1)
    case WaitToPut => Goto(s, i, SetThinking).(sem := s.sem - 1)
    case SetThinking => Goto(s, i, TestNext).(modes := s.modes[i := Thinking])
    case TestNext => Goto(Test(s, After(i, n)), i, TestPrevious)
    case TestPrevious => Goto(Test(s, Before(i, n)), i, PostAfterPut)
    case PostAfterPut => Goto(s, i, LockFood).(sem := s.sem + 1)
  }

  function Init(n: nat, food: nat): (s: State)
    requires n >= 2
    ensures Shape(s)
  {
    State(seq(n, _ => Thinking), seq(n, _ => 0), 1, food, Free, seq(n, _ => LockFood), 0)
  }

  predicate Runs(s: State, schedule: seq<nat>)
    requires Shape(s)
    decreases |schedule|
  {
    schedule == [] ||
    (schedule[0] < |s.pcs| && Enabled(s, schedule[0]) && Runs(Act(s, schedule[0]), schedule[1..]))
  }

  function Run(s: State, schedule: seq<nat>): (s': State)
    requires Shape(s) && Runs(s, schedule)
    ensures Shape(s') && |s'.pcs| == |s.pcs|
    decreases |schedule|
  {
    if schedule == [] then s else Run(Act(s, schedule[0]), schedule[1..])
  }

  // ---------- the invariant ----------

  predicate Inside(pc: Pc) {
    || pc.SetHungry? || pc.TestSelf? || pc.PostAfterTake?
    || pc.SetThinking? || pc.TestNext? || pc.TestPrevious? || pc.PostAfterPut?
  }

  predicate HoldsFood(pc: Pc) { pc.TakeFood? || pc.UnlockFood? }

  predicate FoundNothing(pc: Pc) { pc.Gone? || pc == UnlockFood(0) }

  function DishInHand(pc: Pc): int {
    if (pc.UnlockFood? && pc.dish != 0) || pc.WaitToTake? || pc.SetHungry? || pc.TestSelf? || pc.PostAfterTake? ||
       pc.WaitSelf? || pc.Eat?
    then 1 else 0
  }

  /** What the state array and the grant semaphore of one philosopher say, depending on where it is. */
  predicate Local(pc: Pc, mode: Mode, grant: nat) {
    match pc
    case TestSelf => mode == Hungry && grant == 0
    case PostAfterTake => mode != Thinking && grant == if mode == Eating then 1 else 0
    case WaitSelf => mode != Thinking && grant == if mode == Eating then 1 else 0
    case Eat => mode == Eating && grant == 0
    case WaitToPut => mode == Eating && grant == 0
    case SetThinking => mode == Eating && grant == 0
    case _ => mode == Thinking && grant == 0
  }

  ghost predicate AllLocal(s: State)
    requires Shape(s)
  {
    forall i :: 0 <= i < |s.pcs| ==> Local(s.pcs[i], s.modes[i], s.grants[i])
  }

  ghost predicate OneInside(s: State) {
    && s.sem <= 1
    && (forall i :: 0 <= i < |s.pcs| && Inside(s.pcs[i]) ==> s.sem == 0)
    && (forall i, j :: 0 <= i < |s.pcs| && 0 <= j < |s.pcs| && Inside(s.pcs[i]) && Inside(s.pcs[j]) ==> i == j)
    && (s.sem == 0 ==> exists i :: 0 <= i < |s.pcs| && Inside(s.pcs[i]))
  }

  ghost predicate FoodLockHeld(s: State) {
    && (forall i :: 0 <= i < |s.pcs| ==> (s.foodLock == HeldBy(i) <==> HoldsFood(s.pcs[i])))
    && (s.foodLock.HeldBy? ==> s.foodLock.who < |s.pcs|)
  }

  /** Neighbours never eat together. */
  ghost predicate Apart(s: State)
    requires Shape(s)
  {
    forall i :: 0 <= i < |s.modes| ==> !(s.modes[i] == Eating && s.modes[After(i, |s.modes|)] == Eating)
  }

  /** Somebody inside the section is still going to test `j`. */
  predicate Pending(s: State, j: nat)
    requires Shape(s) && j < |s.pcs|
  {
    var n := |s.pcs|;
    s.pcs[j].TestSelf? || s.pcs[Before(j, n)].TestNext? || s.pcs[After(j, n)].TestNext? || s.pcs[After(j, n)].TestPrevious?
  }

  ghost predicate HungryFor(s: State, j: nat)
    requires Shape(s) && j < |s.pcs|
  {
    s.modes[j] == Hungry && !Pending(s, j) ==>
      s.modes[After(j, |s.pcs|)] == Eating || s.modes[Before(j, |s.pcs|)] == Eating
  }

  /** A hungry philosopher that nobody is about to test has a neighbour eating. */
  ghost predicate HungryForAReason(s: State)
    requires Shape(s)
  {
    forall j :: 0 <= j < |s.pcs| ==> HungryFor(s, j)
  }

  ghost predicate Inv(total: nat, s: State) {
    && Shape(s) && AllLocal(s) && OneInside(s) && FoodLockHeld(s) && Apart(s) && HungryForAReason(s)
    && (forall i :: 0 <= i < |s.pcs| && FoundNothing(s.pcs[i]) ==> s.food == 0)
    && s.food <= total && s.meals + Sum(s.pcs, DishInHand) == Served(total, s.food)
  }

  lemma InitInv(n: nat, food: nat)
    requires n >= 2
    ensures Inv(food, Init(n, food))
  {
    SumBounds(Init(n, food).pcs, DishInHand, 0, 0);
  }

  lemma ActLocal(s: State, i: nat, j: nat)
    requires Shape(s) && i < |s.pcs| && Enabled(s, i) && AllLocal(s) && OneInside(s) && j < |s.pcs|
    ensures var s' := Act(s, i); Local(s'.pcs[j], s'.modes[j], s'.grants[j])
  {
    assert Local(s.pcs[j], s.modes[j], s.grants[j]);
  }

  lemma ActInside(s: State, i: nat)
    requires Shape(s) && i < |s.pcs| && Enabled(s, i) && OneInside(s)
    ensures OneInside(Act(s, i))
  {
    var s' := Act(s, i);
    if s'.sem == 0 && !Inside(s'.pcs[i]) {
      var k :| 0 <= k < |s.pcs| && Inside(s.pcs[k]);
      assert Inside(s'.pcs[k]);
    }
  }

  lemma ActApart(s: State, i: nat)
    requires Shape(s) && i < |s.pcs| && Enabled(s, i) && AllLocal(s) && Apart(s)
    ensures Apart(Act(s, i))
  {
  }

  lemma ActHungry(s: State, i: nat, j: nat)
    requires Shape(s) && i < |s.pcs| && Enabled(s, i) && AllLocal(s) && OneInside(s) && HungryForAReason(s)
    requires j < |s.pcs|
    ensures HungryFor(Act(s, i), j)
  {
    assert HungryFor(s, j);
  }

  lemma ActFoodLock(s: State, i: nat)
    requires Shape(s) && i < |s.pcs| && Enabled(s, i) && FoodLockHeld(s)
    ensures FoodLockHeld(Act(s, i))
  {
  }

  lemma ActFoundNothing(s: State, i: nat, k: nat)
    requires Shape(s) && i < |s.pcs| && Enabled(s, i) && k < |s.pcs|
    requires forall k :: 0 <= k < |s.pcs| && FoundNothing(s.pcs[k]) ==> s.food == 0
    ensures FoundNothing(Act(s, i).pcs[k]) ==> Act(s, i).food == 0
  {
    assert FoundNothing(s.pcs[k]) ==> s.food == 0;
  }

  lemma ActMeals(total: nat, s: State, i: nat)
    requires Shape(s) && i < |s.pcs| && Enabled(s, i)
    requires s.food <= total && s.meals + Sum(s.pcs, DishInHand) == Served(total, s.food)
    requires FoundNothing(s.pcs[i]) ==> s.food == 0
    ensures var s' := Act(s, i); s'.food <= total && s'.meals + Sum(s'.pcs, DishInHand) == Served(total, s'.food)
  {
    SumUpdate(s.pcs, i, Act(s, i).pcs[i], DishInHand);
  }

  lemma ActInv(total: nat, s: State, i: nat)
    requires Inv(total, s) && i < |s.pcs| && Enabled(s, i)
    ensures Inv(total, Act(s, i))
  {
    forall j | 0 <= j < |s.pcs|
      ensures var s' := Act(s, i); Local(s'.pcs[j], s'.modes[j], s'.grants[j])
      ensures HungryFor(Act(s, i), j)
      ensures FoundNothing(Act(s, i).pcs[j]) ==> Act(s, i).food == 0
    {
      ActLocal(s, i, j);
      ActHungry(s, i, j);
      ActFoundNothing(s, i, j);
    }
    ActInside(s, i);
    ActApart(s, i);
    ActFoodLock(s, i);
    ActMeals(total, s, i);
  }

  // ---------- no deadlock ----------

  /** As long as anyone is still at the table, someone can act. */
  lemma NoDeadlock(total: nat, s: State, i: nat) returns (j: nat)
    requires Inv(total, s) && i < |s.pcs| && !s.pcs[i].Gone?
    ensures j < |s.pcs| && Enabled(s, j)
  {
    var n := |s.pcs|;
    if s.foodLock.HeldBy? {
      j := s.foodLock.who;
      assert HoldsFood(s.pcs[j]);
    } else if s.sem == 0 {
      j :| 0 <= j < n && Inside(s.pcs[j]);
    } else if s.pcs[i].WaitSelf? && s.grants[i] == 0 {
      assert Local(s.pcs[i], s.modes[i], s.grants[i]) && HungryFor(s, i);
      assert !Inside(s.pcs[After(i, n)]) && !Inside(s.pcs[Before(i, n)]);
      j := if s.modes[After(i, n)] == Eating then After(i, n) else Before(i, n);
      assert Local(s.pcs[j], s.modes[j], s.grants[j]);
    } else {
      j := i;
    }
  }

  // ---------- every run is finite ----------

  function Rank(pc: Pc): int {
    match pc
    case UnlockFood(dish) => if dish != 0 then 15 else 1
    case WaitToTake => 14
    case SetHungry => 13
    case TestSelf => 12
    case PostAfterTake => 11
    case WaitSelf => 10
    case Eat => 9
    case WaitToPut => 8
    case SetThinking => 7
    case TestNext => 6
    case TestPrevious => 5
    case PostAfterPut => 4
    case LockFood => 3
    case TakeFood => 2
    case Gone => 0
  }

  ghost function Measure(s: State): int {
    14 * s.food + Sum(s.pcs, Rank)
  }

  lemma MeasureIsNatural(s: State)
    ensures Measure(s) >= 0
  {
    SumBounds(s.pcs, Rank, 0, 15);
  }

  lemma InitMeasure(n: nat, food: nat)
    requires n >= 2
    ensures Measure(Init(n, food)) == 14 * food + 3 * n
  {
    SumBounds(Init(n, food).pcs, Rank, 3, 3);
  }

  lemma ActDecreases(s: State, i: nat)
    requires Shape(s) && i < |s.pcs| && Enabled(s, i)
    ensures Measure(Act(s, i)) < Measure(s)
  {
    SumUpdate(s.pcs, i, Act(s, i).pcs[i], Rank);
  }

  lemma {:induction false} RunInv(total: nat, s: State, schedule: seq<nat>)
    requires Inv(total, s) && Runs(s, schedule)
    ensures Inv(total, Run(s, schedule))
    ensures |schedule| + Measure(Run(s, schedule)) <= Measure(s)
    decreases |schedule|
  {
    if schedule != [] {
      ActInv(total, s, schedule[0]);
      ActDecreases(s, schedule[0]);
      RunInv(total, Act(s, schedule[0]), schedule[1..]);
    }
  }

  lemma AtRest(total: nat, s: State)
    requires Inv(total, s) && forall i :: 0 <= i < |s.pcs| ==> !Enabled(s, i)
    ensures forall i :: 0 <= i < |s.pcs| ==> s.pcs[i].Gone?
    ensures s.meals == Served(total, 0)
  {
    forall i | 0 <= i < |s.pcs|
      ensures s.pcs[i].Gone?
    {
      if !s.pcs[i].Gone? {
        var j := NoDeadlock(total, s, i);
      }
    }
    SumBounds(s.pcs, DishInHand, 0, 0);
    assert FoundNothing(s.pcs[0]);
  }

  /** What the invariant says to someone looking at the state array and the semaphores alone. */
  ghost predicate Safe(s: State)
    requires Shape(s)
  {
    var n := |s.pcs|;
    && Apart(s)
    && (forall i :: 0 <= i < n ==>
          s.grants[i] == if s.modes[i] == Eating && (s.pcs[i].PostAfterTake? || s.pcs[i].WaitSelf?) then 1 else 0)
    && (s.sem > 0 ==> forall i :: 0 <= i < n && s.modes[i] == Hungry ==>
          s.modes[After(i, n)] == Eating || s.modes[Before(i, n)] == Eating)
  }

  lemma InvIsSafe(total: nat, s: State)
    requires Inv(total, s)
    ensures Safe(s)
  {
    forall i | 0 <= i < |s.pcs|
      ensures s.grants[i] == if s.modes[i] == Eating && (s.pcs[i].PostAfterTake? || s.pcs[i].WaitSelf?) then 1 else 0
    {
      assert Local(s.pcs[i], s.modes[i], s.grants[i]);
    }
    forall i | 0 <= i < |s.pcs| && s.sem > 0 && s.modes[i] == Hungry
      ensures s.modes[After(i, |s.pcs|)] == Eating || s.modes[Before(i, |s.pcs|)] == Eating
    {
      assert HungryFor(s, i);
    }
  }

  /** Whatever the schedule: neighbours never eat together, a grant is pending exactly for those granted and not
      yet woken, and while nobody is inside the section whoever is hungry has a neighbour eating. */
  lemma EveryRunIsSafe(n: nat, food: nat, schedule: seq<nat>)
    requires n >= 2 && Runs(Init(n, food), schedule)
    ensures Safe(Run(Init(n, food), schedule))
  {
    InitInv(n, food);
    RunInv(food, Init(n, food), schedule);
    InvIsSafe(food, Run(Init(n, food), schedule));
  }

  /** Whatever the schedule: the run is short, and when nobody can act any more everybody has left after
      exactly the dishes that were served, `food - 1` of them. */
  lemma EveryRunEnds(n: nat, food: nat, schedule: seq<nat>)
    requires n >= 2 && Runs(Init(n, food), schedule)
    ensures var s := Run(Init(n, food), schedule);
            && |schedule| <= 14 * food + 3 * n
            && ((forall i :: 0 <= i < n ==> !Enabled(s, i)) ==>
                  (forall i :: 0 <= i < n ==> s.pcs[i].Gone?) && s.meals == (if food == 0 then 0 else food - 1))
  {
    InitInv(n, food);
    InitMeasure(n, food);
    RunInv(food, Init(n, food), schedule);
    var s := Run(Init(n, food), schedule);
    MeasureIsNatural(s);
    if forall i :: 0 <= i < n ==> !Enabled(s, i) {
      AtRest(food, s);
    }
  }
}

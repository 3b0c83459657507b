/** A barrier for two threads built from three error-checking mutexes, and the two threads that print in turn
    with it (arkhipov/11/main.c). Thread 0 is the main thread, thread 1 the child. */
module TwoThreadBarrier {
  import opened Sync

  /** The mutex that guards `barrier_cnt`. */
  const GATE := 2

  /** The next action of a thread. `Enter` to `SecondUnlockGate` is `barrier_for_two`; `Leave` prints, if the line is
      this thread's, and turns to the other index. */
  datatype Pc =
    | AwaitPing | LockOwn | SetPing
    | Enter | Count
    | FirstUnlockGate | FirstLockOther | FirstUnlockOwn
    | SecondUnlockOwn | SecondLockOther | SecondUnlockGate
    | Leave
    | UnlockLast | Done

  datatype Thread = Thread(round: nat, idx: nat, pc: Pc)

  datatype Line = Line(thread: nat, number: nat)

  /** `errors` counts the lock and unlock calls that failed. */
  datatype State =
    State(lines: nat, mutex: seq<Lock>, count: nat, ping: bool, threads: seq<Thread>, out: seq<Line>, errors: nat)

  predicate Shape(s: State) {
    |s.mutex| == 3 && |s.threads| == 2 && s.threads[0].idx < 2 && s.threads[1].idx < 2
  }

  /** What the next action does to a mutex. */
  datatype Op = Lock(j: nat) | Unlock(j: nat) | NoOp

  function OpOf(th: Thread): (op: Op)
    requires th.idx < 2
    ensures (op.Lock? || op.Unlock?) ==> op.j < 3
  {
    match th.pc
    case LockOwn => Lock(th.idx)
    case Enter => Lock(GATE)
    case FirstUnlockGate => Unlock(GATE)
    case FirstLockOther => Lock(1 - th.idx)
    case FirstUnlockOwn => Unlock(th.idx)
    case SecondUnlockOwn => Unlock(th.idx)
    case SecondLockOther => Lock(1 - th.idx)
    case SecondUnlockGate => Unlock(GATE)
    case UnlockLast => Unlock(th.idx)
    case _ => NoOp
  }

  /** A lock call returns at once on a free mutex, and with an error on one the caller holds. */
  predicate Enabled(s: State, x: nat)
    requires Shape(s) && x < 2
  {
    var th := s.threads[x];
    match OpOf(th)
    case Lock(j) => s.mutex[j].Free? || s.mutex[j] == HeldBy(x)
    case Unlock(_) => true
    case NoOp => if th.pc.AwaitPing? then s.ping else !th.pc.Done?
  }

  /** An error-checking mutex refuses a second lock by its holder and an unlock by anyone else. */
  predicate OpFails(s: State, x: nat, op: Op)
    requires Shape(s) && (op.Lock? || op.Unlock? ==> op.j < 3)
  {
    match op
    case Lock(j) => s.mutex[j] == HeldBy(x)
    case Unlock(j) => s.mutex[j] != HeldBy(x)
    case NoOp => false
  }

  function Loop(lines: nat, round: nat): Pc {
    if round < lines then Enter else UnlockLast
  }

  /** The thread after its action; `order` is what it counted at the gate. */
  function Moved(th: Thread, lines: nat, order: nat): Thread
    requires th.idx < 2
  {
    match th.pc
    case AwaitPing => th.(pc := Loop(lines, th.round))
    case LockOwn => th.(pc := SetPing)
    case SetPing => th.(pc := Loop(lines, th.round))
    case Enter => th.(pc := Count)
    case Count => th.(pc := if order == 1 then FirstUnlockGate else SecondUnlockOwn)
    case FirstUnlockGate => th.(pc := FirstLockOther)
    case FirstLockOther => th.(pc := FirstUnlockOwn)
    case FirstUnlockOwn => th.(pc := Leave)
    case SecondUnlockOwn => th.(pc := SecondLockOther)
    case SecondLockOther => th.(pc := SecondUnlockGate)
    case SecondUnlockGate => th.(pc := Leave)
    case Leave => Thread(th.round + 1, 1 - th.idx, Loop(lines, th.round + 1))
    case UnlockLast => th.(pc := Done)
    case Done => th
  }

  function Act(s: State, x: nat): (s': State)
    requires Shape(s) && x < 2 && Enabled(s, x)
    ensures Shape(s')
  {
    var th := s.threads[x];
    var op := OpOf(th);
    var count := if th.pc.Count? then (s.count + 1) % 2 else s.count;
    State(s.lines,
          if op.NoOp? || OpFails(s, x, op) then s.mutex else s.mutex[op.j := if op.Lock? then HeldBy(x) else Free],
          count,
          s.ping || th.pc.SetPing?,
          s.threads[x := Moved(th, s.lines, count)],
          if th.pc.Leave? && th.round % 2 == x then s.out + [Line(x, th.round)] else s.out,
          if OpFails(s, x, op) then s.errors + 1 else s.errors)
  }

  /** The main thread has locked mutex 0 and created the child. */
  function Init(lines: nat): (s: State)
    ensures Shape(s)
  {
    State(lines, [HeldBy(0), Free, Free], 0, false, [Thread(0, 0, AwaitPing), Thread(0, 1, LockOwn)], [], 0)
  }

  predicate Runs(s: State, schedule: seq<nat>)
    requires Shape(s)
    decreases |schedule|
  {
    schedule == [] || (schedule[0] < 2 && Enabled(s, schedule[0]) && Runs(Act(s, schedule[0]), schedule[1..]))
  }

  function Run(s: State, schedule: seq<nat>): (s': State)
    requires Shape(s) && Runs(s, schedule)
    ensures Shape(s')
    decreases |schedule|
  {
    if schedule == [] then s else Run(Act(s, schedule[0]), schedule[1..])
  }

  // ---------- the invariant ----------

  /** Which mutexes a thread holds. */
  predicate Holds(th: Thread, j: nat) {
    match th.pc
    case LockOwn => false
    case Done => false
    case Count => j == th.idx || j == GATE
    case FirstUnlockGate => j == th.idx || j == GATE
    case FirstUnlockOwn => j < GATE
    case SecondUnlockOwn => j == th.idx || j == GATE
    case SecondLockOther => j == GATE
    case SecondUnlockGate => j == 1 - th.idx || j == GATE
    case Leave => j == 1 - th.idx
    case _ => j == th.idx
  }

  predicate MutexAt(s: State, j: nat)
    requires Shape(s) && j < 3
  {
    && (s.mutex[j] == HeldBy(0) <==> Holds(s.threads[0], j))
    && (s.mutex[j] == HeldBy(1) <==> Holds(s.threads[1], j))
    && (s.mutex[j].HeldBy? ==> s.mutex[j].who < 2)
  }

  predicate MutexHeld(s: State)
    requires Shape(s)
  {
    MutexAt(s, 0) && MutexAt(s, 1) && MutexAt(s, GATE)
  }

  predicate First(pc: Pc) { pc.FirstUnlockGate? || pc.FirstLockOther? || pc.FirstUnlockOwn? }
  predicate Second(pc: Pc) { pc.SecondUnlockOwn? || pc.SecondLockOther? || pc.SecondUnlockGate? }

  /** Whether the thread has checked in at the barrier of its round. */
  predicate Arrived(pc: Pc) { First(pc) || Second(pc) || pc.Leave? }

  /** Counted in as the first, and the second has not come yet. */
  predicate Alone(pc: Pc) { pc.FirstUnlockGate? || pc.FirstLockOther? }

  /** The mutex a thread holds between rounds: the two threads swap every round. */
  function Index(round: nat, x: nat): (idx: nat)
    requires x < 2
    ensures idx < 2
  {
    if round % 2 == 0 then x else 1 - x
  }

  predicate LocalTo(th: Thread, x: nat, lines: nat)
    requires x < 2
  {
    && th.idx == Index(th.round, x)
    && (th.pc.AwaitPing? ==> x == 0)
    && (th.pc.LockOwn? || th.pc.SetPing? ==> x == 1)
    && match th.pc
       case AwaitPing => th.round == 0
       case LockOwn => th.round == 0
       case SetPing => th.round == 0
       case UnlockLast => th.round == lines
       case Done => th.round == lines
       case _ => th.round < lines
  }

  /** Thread `a` is level with `b` or one round ahead of it; it can be ahead only once `b` has checked in. */
  predicate Abreast(a: Thread, b: Thread, count: nat) {
    if a.round == b.round then
      if !Arrived(b.pc) then (if Arrived(a.pc) then Alone(a.pc) && count == 1 else count == 0)
      else count == 0 && ((First(a.pc) && Second(b.pc)) || (a.pc.Leave? && (Second(b.pc) || b.pc.Leave?)))
    else
      && a.round == b.round + 1
      && (Second(b.pc) || b.pc.Leave?)
      && (if Arrived(a.pc) then Alone(a.pc) && count == 1 && b.pc.Leave? else count == 0)
  }

  /** How many lines are out: those of the rounds both have left, and the next if the thread ahead printed it. */
  function LinesOut(s: State): nat
    requires Shape(s)
  {
    var r0, r1 := s.threads[0].round, s.threads[1].round;
    if r0 > r1 then (if r1 % 2 == 0 then r1 + 1 else r1)
    else if r1 > r0 then (if r0 % 2 == 1 then r0 + 1 else r0)
    else r0
  }

  ghost predicate Inv(s: State) {
    && Shape(s) && MutexHeld(s) && s.errors == 0
    && LocalTo(s.threads[0], 0, s.lines) && LocalTo(s.threads[1], 1, s.lines)
    && (Abreast(s.threads[0], s.threads[1], s.count) || Abreast(s.threads[1], s.threads[0], s.count))
    && (s.ping <==> !(s.threads[1].pc.LockOwn? || s.threads[1].pc.SetPing?))
    && (s.threads[0].pc.AwaitPing? || s.ping)
    && |s.out| == LinesOut(s)
    && forall i :: 0 <= i < |s.out| ==> s.out[i] == Line(i % 2, i)
  }

  lemma InitInv(lines: nat)
    ensures Inv(Init(lines))
  {
  }

  lemma MovedLocal(th: Thread, x: nat, lines: nat, order: nat)
    requires x < 2 && LocalTo(th, x, lines)
    ensures LocalTo(Moved(th, lines, order), x, lines)
  {
  }

  /** A thread locks what it lacks and unlocks what it has, and then holds just what it should. */
  lemma MovedHolds(th: Thread, x: nat, lines: nat, order: nat, j: nat)
    requires x < 2 && LocalTo(th, x, lines) && j < 3
    ensures var op := OpOf(th);
            && (op == Lock(j) ==> !Holds(th, j)) && (op == Unlock(j) ==> Holds(th, j))
            && (Holds(Moved(th, lines, order), j) <==> op == Lock(j) || (Holds(th, j) && op != Unlock(j)))
  {
  }

  lemma ActMutex(s: State, x: nat, j: nat)
    requires Inv(s) && x < 2 && Enabled(s, x) && j < 3
    ensures MutexAt(Act(s, x), j) && Act(s, x).errors == 0
  {
    var th := s.threads[x];
    var order := Act(s, x).count;
    assert MutexAt(s, j);
    MovedHolds(th, x, s.lines, order, j);
    var op := OpOf(th);
    if !op.NoOp? {
      assert MutexAt(s, op.j);
      MovedHolds(th, x, s.lines, order, op.j);
    }
  }

  lemma ActLocal(s: State, x: nat)
    requires Inv(s) && x < 2 && Enabled(s, x)
    ensures var s' := Act(s, x);
            LocalTo(s'.threads[0], 0, s'.lines) && LocalTo(s'.threads[1], 1, s'.lines)
  {
    MovedLocal(s.threads[x], x, s.lines, Act(s, x).count);
  }

  predicate Apart(a: Thread, b: Thread, j: nat) {
    !(Holds(a, j) && Holds(b, j))
  }

  lemma MovedAbreast(a: Thread, x: nat, b: Thread, lines: nat, count: nat)
    requires x < 2 && LocalTo(a, x, lines) && LocalTo(b, 1 - x, lines)
    requires Apart(a, b, 0) && Apart(a, b, 1) && Apart(a, b, GATE)
    requires OpOf(a).Lock? ==> !Holds(b, OpOf(a).j)
    requires b.pc.LockOwn? ==> a.pc.AwaitPing?
    requires Abreast(a, b, count) || Abreast(b, a, count)
    ensures var c := if a.pc.Count? then (count + 1) % 2 else count;
            var a' := Moved(a, lines, c);
            Abreast(a', b, c) || Abreast(b, a', c)
  {
  }

  lemma ActAbreast(s: State, x: nat)
    requires Inv(s) && x < 2 && Enabled(s, x)
    ensures var s' := Act(s, x);
            Abreast(s'.threads[0], s'.threads[1], s'.count) || Abreast(s'.threads[1], s'.threads[0], s'.count)
  {
    var a, b := s.threads[x], s.threads[1 - x];
    var op := OpOf(a);
    if op.Lock? {
      assert MutexAt(s, op.j);
      MovedHolds(a, x, s.lines, 0, op.j);
    }
    MovedAbreast(a, x, b, s.lines, s.count);
  }

  lemma ActOut(s: State, x: nat)
    requires Inv(s) && x < 2 && Enabled(s, x)
    ensures var s' := Act(s, x);
            |s'.out| == LinesOut(s') && forall i :: 0 <= i < |s'.out| ==> s'.out[i] == Line(i % 2, i)
  {
    if !s.threads[x].pc.Leave? {
      assert Act(s, x).out == s.out && LinesOut(Act(s, x)) == LinesOut(s);
    }
  }

  lemma ActInv(s: State, x: nat)
    requires Inv(s) && x < 2 && Enabled(s, x)
    ensures Inv(Act(s, x))
  {
    ActMutex(s, x, 0);
    ActMutex(s, x, 1);
    ActMutex(s, x, GATE);
    ActLocal(s, x);
    ActAbreast(s, x);
    ActOut(s, x);
  }

  // ---------- no deadlock ----------

  /** Until both threads are done, one of them can act. */
  lemma NoDeadlock(s: State)
    requires Inv(s) && !(s.threads[0].pc.Done? && s.threads[1].pc.Done?)
    ensures Enabled(s, 0) || Enabled(s, 1)
  {
  }

  // ---------- every run ----------

  function Rank(th: Thread, lines: nat): int {
    var loop := 6 * (lines - th.round) + 1;
    match th.pc
    case AwaitPing => loop + 1
    case LockOwn => loop + 2
    case SetPing => loop + 1
    case Enter => loop
    case Count => loop - 1
    case FirstUnlockGate => loop - 2
    case FirstLockOther => loop - 3
    case FirstUnlockOwn => loop - 4
    case SecondUnlockOwn => loop - 2
    case SecondLockOther => loop - 3
    case SecondUnlockGate => loop - 4
    case Leave => loop - 5
    case UnlockLast => 1
    case Done => 0
  }

  function Measure(s: State): int
    requires Shape(s)
  {
    Rank(s.threads[0], s.lines) + Rank(s.threads[1], s.lines)
  }

  lemma MovedRank(th: Thread, x: nat, lines: nat, order: nat)
    requires x < 2 && LocalTo(th, x, lines) && !th.pc.Done?
    ensures 0 <= Rank(Moved(th, lines, order), lines) < Rank(th, lines)
  {
  }

  lemma {:induction false} RunInv(s: State, schedule: seq<nat>)
    requires Inv(s) && Runs(s, schedule)
    ensures Inv(Run(s, schedule)) && Run(s, schedule).lines == s.lines
    ensures |schedule| + Measure(Run(s, schedule)) <= Measure(s)
    decreases |schedule|
  {
    if schedule != [] {
      var x := schedule[0];
      ActInv(s, x);
      MovedRank(s.threads[x], x, s.lines, Act(s, x).count);
      RunInv(Act(s, x), schedule[1..]);
    }
  }

  /** Thread `x` is past the barrier of round `k`. */
  predicate HasLeft(th: Thread, k: nat) { th.round > k || (th.round == k && th.pc.Leave?) }

  /** Thread `x` has checked in at the barrier of round `k`. */
  predicate HasEntered(th: Thread, k: nat) { th.round > k || (th.round == k && Arrived(th.pc)) }

  /** What holds of every state, said without the invariant's bookkeeping. */
  ghost predicate Safe(s: State)
    requires Shape(s)
  {
    && s.errors == 0
    && (forall k: nat :: HasLeft(s.threads[0], k) ==> HasEntered(s.threads[1], k))
    && (forall k: nat :: HasLeft(s.threads[1], k) ==> HasEntered(s.threads[0], k))
    && (forall x :: 0 <= x < 2 && s.threads[x].pc.Enter? ==>
          forall j :: 0 <= j < 3 ==> (s.mutex[j] == HeldBy(x) <==> j == Index(s.threads[x].round, x)))
    && (forall i :: 0 <= i < |s.out| ==> s.out[i] == Line(i % 2, i))
  }

  /** Whatever the schedule: no thread leaves the barrier of a round before both have entered it, between rounds each
      holds just one of mutexes 0 and 1, which they swap every round, lines come out in order, and no lock or unlock
      call fails. */
  lemma EveryRunIsSafe(lines: nat, schedule: seq<nat>)
    requires Runs(Init(lines), schedule)
    ensures Safe(Run(Init(lines), schedule)) && CallsSucceed(Run(Init(lines), schedule))
  {
    InitInv(lines);
    RunInv(Init(lines), schedule);
    InvIsSafe(Run(Init(lines), schedule));
    InvSucceeds(Run(Init(lines), schedule), 0);
    InvSucceeds(Run(Init(lines), schedule), 1);
  }

  /** A thread is about to unlock only what it holds, and to lock only what it does not hold. */
  predicate CallsSucceed(s: State)
    requires Shape(s)
  {
    forall x :: 0 <= x < 2 ==> Succeeds(s, x)
  }

  predicate Succeeds(s: State, x: nat)
    requires Shape(s) && x < 2
  {
    match OpOf(s.threads[x])
    case Lock(j) => s.mutex[j] != HeldBy(x)
    case Unlock(j) => s.mutex[j] == HeldBy(x)
    case NoOp => true
  }

  lemma InvSucceeds(s: State, x: nat)
    requires Inv(s) && x < 2
    ensures Succeeds(s, x)
  {
    var op := OpOf(s.threads[x]);
    if !op.NoOp? {
      assert MutexAt(s, op.j);
      MovedHolds(s.threads[x], x, s.lines, 0, op.j);
    }
  }

  lemma InvIsSafe(s: State)
    requires Inv(s)
    ensures Safe(s)
  {
    forall x | 0 <= x < 2 && s.threads[x].pc.Enter?
      ensures forall j :: 0 <= j < 3 ==> (s.mutex[j] == HeldBy(x) <==> j == Index(s.threads[x].round, x))
    {
      assert MutexAt(s, 0) && MutexAt(s, 1) && MutexAt(s, GATE);
    }
  }

  lemma MeasureIsNatural(s: State)
    requires Inv(s)
    ensures Measure(s) >= 0
  {
  }

  lemma AtRest(s: State)
    requires Inv(s) && !Enabled(s, 0) && !Enabled(s, 1)
    ensures s.threads[0].pc.Done? && s.threads[1].pc.Done?
    ensures s.mutex[0].Free? && s.mutex[1].Free? && s.mutex[GATE].Free?
    ensures |s.out| == s.lines
  {
    if !(s.threads[0].pc.Done? && s.threads[1].pc.Done?) {
      NoDeadlock(s);
    }
  }

  /** Whatever the schedule: the run is short, and when neither thread can act any more both are done, all lines are
      out, and every mutex is free. */
  lemma EveryRunEnds(lines: nat, schedule: seq<nat>)
    requires Runs(Init(lines), schedule)
    ensures var s := Run(Init(lines), schedule);
            && |schedule| <= 12 * lines + 5
            && (!Enabled(s, 0) && !Enabled(s, 1) ==>
                  && s.threads[0].pc.Done? && s.threads[1].pc.Done?
                  && s.mutex[0].Free? && s.mutex[1].Free? && s.mutex[GATE].Free?
                  && |s.out| == lines)
  {
    InitInv(lines);
    RunInv(Init(lines), schedule);
    var s := Run(Init(lines), schedule);
    MeasureIsNatural(s);
    if !Enabled(s, 0) && !Enabled(s, 1) {
      AtRest(s);
    }
  }
}

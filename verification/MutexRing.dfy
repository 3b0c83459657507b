/** Threads that print in turn by handing on the mutexes of a ring: `m` mutexes, `m - 1` threads, each thread
    holding one mutex and taking the next before it frees its own (matsko/11_sync_output/main.c). */
module MutexRing {
  import opened Division
  import opened Sums
  import opened Sync

  /** The next action of a thread: the round of `printFunc`, then its closing loop over all mutexes. Before an unlock a
      thread keeps the `mutex_owner` entry that it has cleared. */
  datatype Pc =
    | Acquire | SetOwner | Print | ClearOwner | Release(prev: int)
    | Scan(j: nat) | ScanClear(j: nat) | ScanRelease(j: nat, prev: int)
    | Done

  /** `round` is how many lines the thread has finished. */
  datatype Thread = Thread(round: nat, pc: Pc)

  /** A printed line: which thread, and the number it prints. */
  datatype Line = Line(thread: nat, number: nat)

  /** `NOBODY` is the -1 of `mutex_owner`; `errors` counts the lock and unlock calls that failed. */
  const NOBODY := -1

  datatype State =
    State(m: nat, lines: nat, mutex: seq<Lock>, owner: seq<int>, threads: seq<Thread>, out: seq<Line>, errors: nat)

  predicate Shape(s: State) {
    s.m >= 2 && |s.mutex| == |s.owner| == s.m && |s.threads| == s.m - 1
  }

  /** The mutex thread `t` holds between rounds, and the one it takes next. */
  function Own(m: nat, t: nat, round: nat): (j: nat)
    requires t < m
    ensures j < m
  {
    (m - t + round) % m
  }

  function Wanted(m: nat, t: nat, round: nat): (j: nat)
    requires t < m
    ensures j < m
  {
    (m - t + 1 + round) % m
  }

  /** A lock call returns at once on a free mutex, and with an error on one the caller holds. */
  predicate Enabled(s: State, t: nat)
    requires Shape(s) && t < |s.threads|
  {
    var th := s.threads[t];
    match th.pc
    case Acquire => s.mutex[Wanted(s.m, t, th.round)].Free? || s.mutex[Wanted(s.m, t, th.round)] == HeldBy(t)
    case Done => false
    case _ => true
  }

  function Goto(s: State, t: nat, pc: Pc): State
    requires t < |s.threads|
  {
    s.(threads := s.threads[t := s.threads[t].(pc := pc)])
  }

  /** `pthread_mutex_unlock` on an error-checking mutex, after which `mutex_owner` is put back if it failed. */
  function Unlock(s: State, t: nat, j: nat, prev: int): (s': State)
    requires Shape(s) && j < s.m
    ensures Shape(s') && s'.threads == s.threads
  {
    if s.mutex[j] == HeldBy(t) then s.(mutex := s.mutex[j := Free])
    else s.(owner := s.owner[j := prev], errors := s.errors + 1)
  }

  function Act(s: State, t: nat): (s': State)
    requires Shape(s) && t < |s.threads| && Enabled(s, t)
    ensures Shape(s')
  {
    var th := s.threads[t];
    var own, wanted := Own(s.m, t, th.round), Wanted(s.m, t, th.round);
    match th.pc
    case Acquire =>
      if s.mutex[wanted].Free? then Goto(s, t, SetOwner).(mutex := s.mutex[wanted := HeldBy(t)])
      else Goto(s, t, Print).(errors := s.errors + 1)
    case SetOwner => Goto(s, t, Print).(owner := s.owner[wanted := t])
    case Print => Goto(s, t, ClearOwner).(out := s.out + [Line(t, th.round + 1)])
    case ClearOwner => Goto(s, t, Release(s.owner[own])).(owner := s.owner[own := NOBODY])
    case Release(prev) =>
      var s1 := Unlock(s, t, own, prev);
      s1.(threads := s.threads[t := Thread(th.round + 1, if th.round + 1 < s.lines then Acquire else Scan(0))])
    case Scan(j) =>
      if j >= s.m then Goto(s, t, Done)
      else if s.owner[j] == t then Goto(s, t, ScanClear(j))
      else Goto(s, t, Scan(j + 1))
    case ScanClear(j) =>
      if j >= s.m then s else Goto(s, t, ScanRelease(j, s.owner[j])).(owner := s.owner[j := NOBODY])
    case ScanRelease(j, prev) =>
      if j >= s.m then s else Goto(Unlock(s, t, j, prev), t, Scan(j + 1))
  }

  /** Once every thread has taken its first mutex: the parent, thread 0, holds mutex 0 and child `t` holds mutex `m - t`. */
  function Init(m: nat, lines: nat): (s: State)
    requires m >= 2
    ensures Shape(s)
  {
    State(m, lines,
          seq(m, j requires 0 <= j < m => if j == 0 then HeldBy(0) else if j == 1 then Free else HeldBy(m - j)),
          seq(m, j => if j == 0 then 0 else if j == 1 then NOBODY else m - j),
          seq(m - 1, _ => Thread(0, if lines > 0 then Acquire else Scan(0))), [], 0)
  }

  predicate Runs(s: State, schedule: seq<nat>)
    requires Shape(s)
    decreases |schedule|
  {
    schedule == [] ||
    (schedule[0] < |s.threads| && Enabled(s, schedule[0]) && Runs(Act(s, schedule[0]), schedule[1..]))
  }

  function Run(s: State, schedule: seq<nat>): (s': State)
    requires Shape(s) && Runs(s, schedule)
    ensures Shape(s')
    decreases |schedule|
  {
    if schedule == [] then s else Run(Act(s, schedule[0]), schedule[1..])
  }

  // ---------- places on the ring ----------

  /** Places less than `m` apart on the ring of `m` are different. */
  lemma SamePlace(m: nat, x: nat, y: nat)
    requires m > 0 && x <= y < x + m && x % m == y % m
    ensures x == y
  {
    var k := y / m - x / m;
    assert y - x == m * k;
    if k >= 1 {
      MulAtLeast(m, k);
    }
  }

  lemma OnceRound(m: nat, x: nat)
    requires m > 0
    ensures (x + m) % m == x % m && (x + m) / m == x / m + 1
  {
    assert x + m == m * (x / m + 1) + x % m;
    DivUnique(m, x + m, x / m + 1, x % m);
  }

  // ---------- the invariant ----------

  /** Inside a round, between taking the next mutex and freeing the old one. */
  predicate Busy(pc: Pc) { pc.SetOwner? || pc.Print? || pc.ClearOwner? || pc.Release? }

  /** Whether thread `t` holds its own mutex: always, until its closing loop has come past it. */
  predicate HoldsOwn(m: nat, t: nat, th: Thread)
    requires t < m
  {
    match th.pc
    case Scan(j) => j <= Own(m, t, th.round)
    case Done => false
    case _ => true
  }

  predicate Holds(m: nat, t: nat, th: Thread, j: nat)
    requires t < m
  {
    (HoldsOwn(m, t, th) && j == Own(m, t, th.round)) || (Busy(th.pc) && j == Wanted(m, t, th.round))
  }

  /** Whether `mutex_owner[j]` names thread `t`: not yet just after locking, no longer just before unlocking. */
  predicate Named(m: nat, t: nat, th: Thread, j: nat)
    requires t < m
  {
    Holds(m, t, th, j) &&
    match th.pc
    case SetOwner => j != Wanted(m, t, th.round)
    case Release(_) => j != Own(m, t, th.round)
    case ScanRelease(_, _) => false
    case _ => true
  }

  ghost predicate MutexHeld(s: State)
    requires Shape(s)
  {
    && (forall j, t :: 0 <= j < s.m && 0 <= t < |s.threads| ==>
          (s.mutex[j] == HeldBy(t) <==> Holds(s.m, t, s.threads[t], j)))
    && (forall j :: 0 <= j < s.m && s.mutex[j].HeldBy? ==> s.mutex[j].who < |s.threads|)
  }

  ghost predicate OwnerNamed(s: State)
    requires Shape(s)
  {
    forall j, t :: 0 <= j < s.m && 0 <= t < |s.threads| ==>
      (s.owner[j] == t <==> Named(s.m, t, s.threads[t], j))
  }

  predicate WellPlaced(m: nat, lines: nat, t: nat, th: Thread)
    requires t < m
  {
    match th.pc
    case Scan(j) => th.round == lines && j <= m
    case ScanClear(j) => th.round == lines && j == Own(m, t, th.round)
    case ScanRelease(j, _) => th.round == lines && j == Own(m, t, th.round)
    case Done => th.round == lines
    case _ => th.round < lines
  }

  /** It is thread `turn`'s turn: those before it have finished one line more, and only it is inside a round. */
  ghost predicate InTurn(s: State, turn: nat, round: nat)
    requires Shape(s)
  {
    && turn < |s.threads|
    && forall t :: 0 <= t < |s.threads| ==>
         && s.threads[t].round == (if t < turn then round + 1 else round)
         && (Busy(s.threads[t].pc) ==> t == turn)
         && WellPlaced(s.m, s.lines, t, s.threads[t])
  }

  /** The line after `line` when `n` threads print in turn. */
  function NextLine(line: Line, n: nat): Line {
    if line.thread + 1 < n then Line(line.thread + 1, line.number) else Line(0, line.number + 1)
  }

  ghost predicate Cyclic(out: seq<Line>, n: nat) {
    && (out != [] ==> out[0] == Line(0, 1))
    && forall g :: 0 < g < |out| ==> out[g] == NextLine(out[g - 1], n)
  }

  ghost predicate Printed(s: State, turn: nat, round: nat)
    requires Shape(s) && turn < |s.threads|
  {
    && Cyclic(s.out, |s.threads|)
    && if s.threads[turn].pc.ClearOwner? || s.threads[turn].pc.Release?
       then s.out != [] && s.out[|s.out| - 1] == Line(turn, round + 1)
       else if s.out == [] then turn == 0 && round == 0
       else NextLine(s.out[|s.out| - 1], |s.threads|) == Line(turn, round + 1)
  }

  ghost predicate Inv(s: State, turn: nat, round: nat) {
    && Shape(s) && MutexHeld(s) && OwnerNamed(s) && InTurn(s, turn, round) && Printed(s, turn, round) && s.errors == 0
  }

  lemma InitInv(m: nat, lines: nat)
    requires m >= 2
    ensures Inv(Init(m, lines), 0, 0)
  {
    var s := Init(m, lines);
    forall t | 0 <= t < m - 1
      ensures Own(m, t, 0) == if t == 0 then 0 else m - t
    {
    }
  }

  /** On the ring, the mutex thread `t` wants when it is not its turn is the one its neighbour holds. */
  lemma BlockedOutOfTurn(s: State, turn: nat, round: nat, t: nat)
    requires Inv(s, turn, round) && t < |s.threads| && t != turn && s.threads[t].pc.Acquire?
    ensures !Enabled(s, t)
  {
    var n, j := |s.threads|, Wanted(s.m, t, s.threads[t].round);
    var w := if t == 0 then n - 1 else t - 1;
    if t == 0 {
      OnceRound(s.m, round + 2);
    }
    assert Own(s.m, w, s.threads[w].round) == j;
    assert Holds(s.m, w, s.threads[w], j) && s.mutex[j] == HeldBy(w);
  }

  /** And the one it wants when it is its turn is free. */
  lemma FreeInTurn(s: State, turn: nat, round: nat)
    requires Inv(s, turn, round) && s.threads[turn].pc.Acquire?
    ensures s.mutex[Wanted(s.m, turn, s.threads[turn].round)].Free?
  {
    var j := Wanted(s.m, turn, s.threads[turn].round);
    if s.mutex[j].HeldBy? {
      var w := s.mutex[j].who;
      assert Holds(s.m, w, s.threads[w], j);
      if w < turn {
        SamePlace(s.m, s.m - turn + 1 + round, s.m - w + round + 1);
      } else {
        SamePlace(s.m, s.m - w + round, s.m - turn + 1 + round);
      }
    }
  }

  lemma OwnIsNotWanted(m: nat, t: nat, round: nat)
    requires t < m && m >= 2
    ensures Own(m, t, round) != Wanted(m, t, round)
    ensures Own(m, t, round + 1) == Wanted(m, t, round)
  {
    if Own(m, t, round) == Wanted(m, t, round) {
      SamePlace(m, m - t + round, m - t + 1 + round);
    }
  }

  /** `s'` differs from `s` only in thread `t` and in mutexes that are free or held by `t`. */
  ghost predicate OnlyBy(s: State, s': State, t: nat)
    requires Shape(s) && Shape(s') && t < |s.threads|
  {
    && s'.m == s.m && s'.threads == s.threads[t := s'.threads[t]]
    && forall j :: 0 <= j < s.m ==>
         || s'.mutex[j] == s.mutex[j]
         || (s.mutex[j] in {Free, HeldBy(t)} && s'.mutex[j] in {Free, HeldBy(t)})
  }

  lemma MutexFrame(s: State, s': State, t: nat)
    requires Shape(s) && Shape(s') && t < |s.threads| && MutexHeld(s) && OnlyBy(s, s', t)
    requires forall j :: 0 <= j < s.m ==> (s'.mutex[j] == HeldBy(t) <==> Holds(s.m, t, s'.threads[t], j))
    ensures MutexHeld(s')
  {
    forall j, u | 0 <= j < s.m && 0 <= u < |s.threads|
      ensures s'.mutex[j] == HeldBy(u) <==> Holds(s.m, u, s'.threads[u], j)
    {
      assert s.mutex[j] == HeldBy(u) <==> Holds(s.m, u, s.threads[u], j);
    }
  }

  lemma ActMutexInRound(s: State, turn: nat, round: nat, t: nat)
    requires Inv(s, turn, round) && t < |s.threads| && Enabled(s, t) && s.threads[t].pc != Done
    requires s.threads[t].pc.Acquire? || Busy(s.threads[t].pc)
    ensures MutexHeld(Act(s, t)) && Act(s, t).errors == 0
  {
    if s.threads[t].pc.Acquire? {
      if t != turn {
        BlockedOutOfTurn(s, turn, round, t);
      }
      FreeInTurn(s, turn, round);
    }
    var th := s.threads[t];
    OwnIsNotWanted(s.m, t, th.round);
    assert Holds(s.m, t, th, Own(s.m, t, th.round));
    MutexFrame(s, Act(s, t), t);
  }

  lemma ActMutexAfter(s: State, turn: nat, round: nat, t: nat)
    requires Inv(s, turn, round) && t < |s.threads| && Enabled(s, t)
    requires !s.threads[t].pc.Acquire? && !Busy(s.threads[t].pc)
    ensures MutexHeld(Act(s, t)) && Act(s, t).errors == 0
  {
    var th := s.threads[t];
    var own := Own(s.m, t, th.round);
    assert WellPlaced(s.m, s.lines, t, th);
    if HoldsOwn(s.m, t, th) {
      assert Holds(s.m, t, th, own) && s.mutex[own] == HeldBy(t);
      assert !th.pc.ScanRelease? ==> Named(s.m, t, th, own) && s.owner[own] == t;
    }
    MutexFrame(s, Act(s, t), t);
  }

  lemma OwnerFrame(s: State, s': State, t: nat)
    requires Shape(s) && Shape(s') && t < |s.threads| && MutexHeld(s) && OwnerNamed(s) && OnlyBy(s, s', t)
    requires forall j :: 0 <= j < s.m && s'.owner[j] != s.owner[j] ==> s.mutex[j] == HeldBy(t) && s'.owner[j] in {t, NOBODY}
    requires forall j :: 0 <= j < s.m ==> (s'.owner[j] == t <==> Named(s.m, t, s'.threads[t], j))
    ensures OwnerNamed(s')
  {
    forall j, u | 0 <= j < s.m && 0 <= u < |s.threads|
      ensures s'.owner[j] == u <==> Named(s.m, u, s'.threads[u], j)
    {
      assert s.owner[j] == u <==> Named(s.m, u, s.threads[u], j);
      assert s.mutex[j] == HeldBy(u) <==> Holds(s.m, u, s.threads[u], j);
    }
  }

  lemma ActOwner(s: State, turn: nat, round: nat, t: nat)
    requires Inv(s, turn, round) && t < |s.threads| && Enabled(s, t)
    requires MutexHeld(Act(s, t)) && Act(s, t).errors == 0
    ensures OwnerNamed(Act(s, t))
  {
    var th := s.threads[t];
    var own, wanted := Own(s.m, t, th.round), Wanted(s.m, t, th.round);
    OwnIsNotWanted(s.m, t, th.round);
    assert WellPlaced(s.m, s.lines, t, th);
    assert s.mutex[own] == HeldBy(t) <==> Holds(s.m, t, th, own);
    assert s.mutex[wanted] == HeldBy(t) <==> Holds(s.m, t, th, wanted);
    assert s.owner[own] == t <==> Named(s.m, t, th, own);
    assert s.owner[wanted] == t <==> Named(s.m, t, th, wanted);
    OwnerFrame(s, Act(s, t), t);
  }

  /** Whose turn comes after `turn`, once it has finished its line. */
  function NextTurn(turn: nat, n: nat): nat { if turn + 1 < n then turn + 1 else 0 }

  function NextRound(turn: nat, round: nat, n: nat): nat { if turn + 1 < n then round else round + 1 }

  /** The turn after thread `t` has acted. */
  function TurnAfter(s: State, turn: nat, t: nat): nat
    requires t < |s.threads|
  {
    if s.threads[t].pc.Release? then NextTurn(turn, |s.threads|) else turn
  }

  function RoundAfter(s: State, turn: nat, round: nat, t: nat): nat
    requires t < |s.threads|
  {
    if s.threads[t].pc.Release? then NextRound(turn, round, |s.threads|) else round
  }

  lemma ActTurn(s: State, turn: nat, round: nat, t: nat)
    requires Inv(s, turn, round) && t < |s.threads| && Enabled(s, t) && Act(s, t).errors == 0
    ensures InTurn(Act(s, t), TurnAfter(s, turn, t), RoundAfter(s, turn, round, t))
  {
    if s.threads[t].pc.Acquire? && t != turn {
      BlockedOutOfTurn(s, turn, round, t);
    }
    assert WellPlaced(s.m, s.lines, t, s.threads[t]);
    ScanMeetsOwn(s, turn, round, t);
    var s', th' := Act(s, t), Act(s, t).threads[t];
    assert s'.threads == s.threads[t := th'] && s'.m == s.m && s'.lines == s.lines;
    assert WellPlaced(s.m, s.lines, t, th');
  }

  lemma ActPrinted(s: State, turn: nat, round: nat, t: nat)
    requires Inv(s, turn, round) && t < |s.threads| && Enabled(s, t) && Act(s, t).errors == 0
    ensures Printed(Act(s, t), TurnAfter(s, turn, t), RoundAfter(s, turn, round, t))
  {
    if s.threads[t].pc.Acquire? && t != turn {
      BlockedOutOfTurn(s, turn, round, t);
    }
    assert Busy(s.threads[t].pc) ==> t == turn;
    assert s.threads[turn].round == round;
  }

  /** The closing loop clears a mutex only where it finds its own name. */
  lemma ScanMeetsOwn(s: State, turn: nat, round: nat, t: nat)
    requires Inv(s, turn, round) && t < |s.threads|
    ensures var th := s.threads[t];
            th.pc.Scan? && th.pc.j < s.m && s.owner[th.pc.j] == t ==> th.pc.j == Own(s.m, t, th.round)
  {
    var th := s.threads[t];
    if th.pc.Scan? && th.pc.j < s.m && s.owner[th.pc.j] == t {
      assert Named(s.m, t, th, th.pc.j);
    }
  }

  lemma ActInv(s: State, turn: nat, round: nat, t: nat) returns (turn': nat, round': nat)
    requires Inv(s, turn, round) && t < |s.threads| && Enabled(s, t)
    ensures Inv(Act(s, t), turn', round')
  {
    if s.threads[t].pc.Acquire? || Busy(s.threads[t].pc) {
      ActMutexInRound(s, turn, round, t);
    } else {
      ActMutexAfter(s, turn, round, t);
    }
    ActOwner(s, turn, round, t);
    ActTurn(s, turn, round, t);
    ActPrinted(s, turn, round, t);
    turn', round' := TurnAfter(s, turn, t), RoundAfter(s, turn, round, t);
  }

  // ---------- no deadlock ----------

  /** Until every thread is done, someone can act: the one whose turn it is, or one closing down. */
  lemma NoDeadlock(s: State, turn: nat, round: nat, i: nat) returns (t: nat)
    requires Inv(s, turn, round) && i < |s.threads| && !s.threads[i].pc.Done?
    ensures t < |s.threads| && Enabled(s, t)
  {
    if s.threads[turn].pc.Acquire? {
      FreeInTurn(s, turn, round);
      t := turn;
    } else if Busy(s.threads[turn].pc) {
      t := turn;
    } else {
      assert WellPlaced(s.m, s.lines, turn, s.threads[turn]);
      assert WellPlaced(s.m, s.lines, i, s.threads[i]);
      t := i;
    }
  }

  // ---------- every run is finite ----------

  function Rank(m: nat, lines: nat, th: Thread): int {
    var after := 3 * m + 1;
    match th.pc
    case Acquire => after + 5 * (lines - th.round)
    case SetOwner => after + 5 * (lines - th.round) - 1
    case Print => after + 5 * (lines - th.round) - 2
    case ClearOwner => after + 5 * (lines - th.round) - 3
    case Release(_) => after + 5 * (lines - th.round) - 4
    case Scan(j) => 3 * (m - j) + 1
    case ScanClear(j) => 3 * (m - j)
    case ScanRelease(j, _) => 3 * (m - j) - 1
    case Done => 0
  }

  ghost function Weight(m: nat, lines: nat): Thread -> int {
    th => Rank(m, lines, th)
  }

  ghost function Measure(s: State): int {
    Sum(s.threads, Weight(s.m, s.lines))
  }

  lemma ActDecreases(s: State, turn: nat, round: nat, t: nat)
    requires Inv(s, turn, round) && t < |s.threads| && Enabled(s, t) && Act(s, t).errors == 0
    ensures Measure(Act(s, t)) < Measure(s)
  {
    var th, th' := s.threads[t], Act(s, t).threads[t];
    RankDecreases(s, turn, round, t);
    SumUpdate(s.threads, t, th', Weight(s.m, s.lines));
    assert Act(s, t).threads == s.threads[t := th'];
  }

  lemma RankDecreases(s: State, turn: nat, round: nat, t: nat)
    requires Inv(s, turn, round) && t < |s.threads| && Enabled(s, t) && Act(s, t).errors == 0
    ensures Act(s, t).m == s.m && Act(s, t).lines == s.lines
    ensures Rank(s.m, s.lines, Act(s, t).threads[t]) < Rank(s.m, s.lines, s.threads[t])
  {
    assert WellPlaced(s.m, s.lines, t, s.threads[t]);
  }

  lemma MeasureIsNatural(s: State, turn: nat, round: nat)
    requires Inv(s, turn, round)
    ensures Measure(s) >= 0
  {
    forall t | 0 <= t < |s.threads|
      ensures 0 <= Weight(s.m, s.lines)(s.threads[t]) <= 3 * s.m + 1 + 5 * s.lines
    {
      assert WellPlaced(s.m, s.lines, t, s.threads[t]);
    }
    SumBounds(s.threads, Weight(s.m, s.lines), 0, 3 * s.m + 1 + 5 * s.lines);
  }

  lemma InitMeasure(m: nat, lines: nat)
    requires m >= 2
    ensures Measure(Init(m, lines)) == (3 * m + 1 + 5 * lines) * (m - 1)
  {
    var bound := 3 * m + 1 + 5 * lines;
    SumBounds(Init(m, lines).threads, Weight(m, lines), bound, bound);
  }

  lemma {:induction false} RunInv(s: State, turn: nat, round: nat, schedule: seq<nat>) returns (turn': nat, round': nat)
    requires Inv(s, turn, round) && Runs(s, schedule)
    ensures Inv(Run(s, schedule), turn', round')
    ensures Run(s, schedule).m == s.m && Run(s, schedule).lines == s.lines
    ensures |schedule| + Measure(Run(s, schedule)) <= Measure(s)
    decreases |schedule|
  {
    if schedule == [] {
      turn', round' := turn, round;
    } else {
      turn', round' := ActInv(s, turn, round, schedule[0]);
      ActDecreases(s, turn, round, schedule[0]);
      turn', round' := RunInv(Act(s, schedule[0]), turn', round', schedule[1..]);
    }
  }

  /** Lines that follow one another cyclically are these. */
  lemma {:induction false} CyclicForm(out: seq<Line>, n: nat, g: nat)
    requires n > 0 && Cyclic(out, n) && g < |out|
    ensures out[g] == Line(g % n, g / n + 1)
  {
    if g == 0 {
      DivUnique(n, 0, 0, 0);
    } else {
      CyclicForm(out, n, g - 1);
      var q, r := (g - 1) / n, (g - 1) % n;
      if r + 1 < n {
        DivUnique(n, g, q, r + 1);
      } else {
        DivUnique(n, g, q + 1, 0);
      }
    }
  }

  lemma HolderIsNotDone(s: State, turn: nat, round: nat, j: nat)
    requires Inv(s, turn, round) && j < s.m && s.mutex[j].HeldBy?
    ensures s.mutex[j].who < |s.threads| && !s.threads[s.mutex[j].who].pc.Done?
  {
    assert Holds(s.m, s.mutex[j].who, s.threads[s.mutex[j].who], j);
  }

  lemma AtRest(s: State, turn: nat, round: nat)
    requires Inv(s, turn, round) && forall t :: 0 <= t < |s.threads| ==> !Enabled(s, t)
    ensures forall t :: 0 <= t < |s.threads| ==> s.threads[t].pc.Done?
    ensures forall j :: 0 <= j < s.m ==> s.mutex[j].Free?
    ensures turn == 0 && round == s.lines
  {
    forall t | 0 <= t < |s.threads|
      ensures s.threads[t].pc.Done?
    {
      if !s.threads[t].pc.Done? {
        var u := NoDeadlock(s, turn, round, t);
      }
    }
    forall j | 0 <= j < s.m
      ensures s.mutex[j].Free?
    {
      if s.mutex[j].HeldBy? {
        HolderIsNotDone(s, turn, round, j);
      }
    }
    assert s.threads[0].round == s.threads[turn].round == s.lines;
  }

  lemma AllLinesPrinted(s: State)
    requires Inv(s, 0, s.lines) && !Busy(s.threads[0].pc)
    ensures |s.out| == s.lines * |s.threads|
  {
    var n, g := |s.threads|, |s.out| - 1;
    if s.out != [] {
      CyclicForm(s.out, n, g);
      assert g % n == n - 1 && g / n + 1 == s.lines;
      assert g + 1 == n * (g / n) + n;
    }
  }

  lemma NamedHolds(s: State, turn: nat, round: nat, j: nat, t: nat)
    requires Inv(s, turn, round) && j < s.m && t < |s.threads| && s.owner[j] == t
    ensures s.mutex[j] == HeldBy(t)
  {
    assert Named(s.m, t, s.threads[t], j);
  }

  /** A thread is about to unlock only what it holds, and to lock only what it does not hold. */
  predicate Succeeds(s: State, t: nat)
    requires Shape(s) && t < |s.threads|
  {
    var th := s.threads[t];
    match th.pc
    case Acquire => s.mutex[Wanted(s.m, t, th.round)] != HeldBy(t)
    case Release(_) => s.mutex[Own(s.m, t, th.round)] == HeldBy(t)
    case ScanRelease(j, _) => j < s.m && s.mutex[j] == HeldBy(t)
    case _ => true
  }

  lemma InvSucceeds(s: State, turn: nat, round: nat, t: nat)
    requires Inv(s, turn, round) && t < |s.threads|
    ensures Succeeds(s, t)
  {
    var th := s.threads[t];
    var own, wanted := Own(s.m, t, th.round), Wanted(s.m, t, th.round);
    OwnIsNotWanted(s.m, t, th.round);
    assert WellPlaced(s.m, s.lines, t, th);
    assert s.mutex[own] == HeldBy(t) <==> Holds(s.m, t, th, own);
    assert s.mutex[wanted] == HeldBy(t) <==> Holds(s.m, t, th, wanted);
  }

  /** Whatever the schedule: no lock or unlock call ever fails, and a mutex that names a thread is held by it. */
  lemma EveryRunIsSafe(m: nat, lines: nat, schedule: seq<nat>)
    requires m >= 2 && Runs(Init(m, lines), schedule)
    ensures var s := Run(Init(m, lines), schedule);
            && s.m == m && s.errors == 0 && (forall t :: 0 <= t < m - 1 ==> Succeeds(s, t))
            && (forall j, t :: 0 <= j < m && 0 <= t < m - 1 && s.owner[j] == t ==> s.mutex[j] == HeldBy(t))
  {
    InitInv(m, lines);
    var turn, round := RunInv(Init(m, lines), 0, 0, schedule);
    var s := Run(Init(m, lines), schedule);
    forall j, t | 0 <= j < m && 0 <= t < m - 1 && s.owner[j] == t
      ensures s.mutex[j] == HeldBy(t)
    {
      NamedHolds(s, turn, round, j, t);
    }
    forall t | 0 <= t < m - 1
      ensures Succeeds(s, t)
    {
      InvSucceeds(s, turn, round, t);
    }
  }

  /** Whatever the schedule: lines come out in strict cyclic order. */
  lemma EveryRunInOrder(m: nat, lines: nat, schedule: seq<nat>, g: nat)
    requires m >= 2 && Runs(Init(m, lines), schedule) && g < |Run(Init(m, lines), schedule).out|
    ensures Run(Init(m, lines), schedule).out[g] == Line(g % (m - 1), g / (m - 1) + 1)
  {
    InitInv(m, lines);
    var turn, round := RunInv(Init(m, lines), 0, 0, schedule);
    CyclicForm(Run(Init(m, lines), schedule).out, m - 1, g);
  }

  /** Whatever the schedule: the run is short, and when nobody can act any more every thread is done, has printed
      all its lines, and every mutex is free. */
  lemma EveryRunEnds(m: nat, lines: nat, schedule: seq<nat>)
    requires m >= 2 && Runs(Init(m, lines), schedule)
    ensures var s := Run(Init(m, lines), schedule);
            && s.m == m
            && |schedule| <= (3 * m + 1 + 5 * lines) * (m - 1)
            && ((forall t :: 0 <= t < m - 1 ==> !Enabled(s, t)) ==>
                  && (forall t :: 0 <= t < m - 1 ==> s.threads[t].pc.Done?)
                  && (forall j :: 0 <= j < m ==> s.mutex[j].Free?)
                  && |s.out| == lines * (m - 1))
  {
    InitInv(m, lines);
    InitMeasure(m, lines);
    var turn, round := RunInv(Init(m, lines), 0, 0, schedule);
    var s := Run(Init(m, lines), schedule);
    MeasureIsNatural(s, turn, round);
    if forall t :: 0 <= t < m - 1 ==> !Enabled(s, t) {
      AtRest(s, turn, round);
      AllLinesPrinted(s);
    }
  }
}

/** Any number of threads bubble-sorting one linked list with a lock on every node, while others append lines to it
    (Shinkevich/18/lab18.c). Nodes are known by their place: a swap exchanges the lines of two nodes. */
module ConcurrentSort {
  import opened Sums
  import opened Sync
  import opened Texts

  /** The next action of a thread: a sorter at node `j` (`calm` is the C variable `sorted`), or an appender. */
  datatype Pc =
    | Sleep | StartPass
    | LockNode(j: nat, calm: bool) | AtNode(j: nat, calm: bool)
    | LockNext(j: nat, calm: bool) | Compare(j: nat, calm: bool) | UnlockNext(j: nat, calm: bool)
    | UnlockNode(j: nat, calm: bool) | Advance(j: nat, calm: bool)
    | EndPass(calm: bool) | Exited
    | PushIdle
    | PushLock(j: nat, line: Text) | PushAt(j: nat, line: Text) | PushOn(j: nat, line: Text) | PushDone(j: nat)

  /** The record of a thread's last pass: how many nodes there were when it started, after which of the nodes that it
      has left behind the others have put a line out of order (`slips`), and whether another thread has swapped there. */
  datatype Pass = Pass(start: nat, slips: set<nat>, disturbed: bool)

  /** The fields from `appended` on only record. Since the last append: the swaps, the inversions there were then, and
      the passes ended that had swapped (`noisy`). And for each thread its last pass. */
  datatype State = State(lines: seq<Text>, locks: seq<Lock>, finished: bool, threads: seq<Pc>,
                         appended: seq<Text>, swaps: nat, base: nat, noisy: nat, passes: seq<Pass>)

  predicate Shape(s: State) {
    |s.lines| == |s.locks| >= 1 && |s.passes| == |s.threads|
  }

  predicate Placed(pc: Pc, n: nat) {
    match pc
    case LockNode(j, _) => j < n
    case AtNode(j, _) => j < n
    case LockNext(j, _) => j + 1 < n
    case Compare(j, _) => j + 1 < n
    case UnlockNext(j, _) => j + 1 < n
    case UnlockNode(j, _) => j < n
    case Advance(j, _) => j < n
    case PushLock(j, _) => j < n
    case PushAt(j, _) => j < n
    case PushOn(j, _) => j + 1 < n
    case PushDone(j) => j < n
    case _ => true
  }

  /** What the next action does to a lock. */
  datatype Op = Take(k: nat) | Drop(k: nat) | Keep

  function OpOf(pc: Pc): Op {
    match pc
    case LockNode(j, _) => Take(j)
    case LockNext(j, _) => Take(j + 1)
    case PushLock(j, _) => Take(j)
    case UnlockNext(j, _) => Drop(j + 1)
    case UnlockNode(j, _) => Drop(j)
    case PushOn(j, _) => Drop(j)
    case PushDone(j) => Drop(j)
    case _ => Keep
  }

  predicate Enabled(s: State, i: nat)
    requires Shape(s) && i < |s.threads| && Placed(s.threads[i], |s.lines|)
  {
    var pc := s.threads[i];
    match OpOf(pc)
    case Take(k) => s.locks[k].Free?
    case _ => !pc.Exited? && !pc.PushIdle?
  }

  /** Whether the action swaps the lines of nodes `j` and `j + 1`. */
  predicate Swaps(pc: Pc, lines: seq<Text>)
    requires Placed(pc, |lines|)
  {
    pc.Compare? && Less(lines[pc.j + 1], lines[pc.j])
  }

  /** Whether the action appends a node: it holds the lock of a node that has no next. */
  predicate Appends(pc: Pc, n: nat) {
    pc.PushAt? && pc.j + 1 >= n
  }

  /** A sorter that has found no next node behind the last of `n`, and has let it go. */
  predicate PastEnd(pc: Pc, n: nat) {
    pc.EndPass? || (pc.Advance? && pc.j + 1 == n)
  }

  predicate InPass(pc: Pc) {
    || pc.LockNode? || pc.AtNode? || pc.LockNext? || pc.Compare?
    || pc.UnlockNext? || pc.UnlockNode? || pc.Advance? || pc.EndPass?
  }

  /** The pass under way has swapped nothing so far. */
  predicate Calm(pc: Pc) {
    InPass(pc) && pc.calm
  }

  /** How many neighbouring pairs of the list of `n` the pass has behind it. */
  function Frontier(pc: Pc, n: nat): int
    requires Calm(pc)
  {
    if pc.EndPass? then n - 1
    else if pc.UnlockNext? || pc.UnlockNode? || pc.Advance? then if pc.j + 1 < n then pc.j + 1 else n - 1
    else pc.j
  }

  /** What linking `line` behind the last node does to the pass of a thread at `pc`: if the thread is past the end, the
      new pair is behind it. */
  function PassAfterAppend(pass: Pass, pc: Pc, lines: seq<Text>, line: Text): Pass
    requires lines != []
  {
    if PastEnd(pc, |lines|) && Less(line, lines[|lines| - 1]) then pass.(slips := pass.slips + {|lines| - 1}) else pass
  }

  /** What a swap of nodes `j` and `j + 1`, which leaves `lines`, does to the pass of another thread at `pc`: it can put
      the two pairs beside it out of order, or right, if they are behind that thread. */
  function PassAfterSwap(pass: Pass, pc: Pc, lines: seq<Text>, j: nat): Pass
    requires j + 1 < |lines|
  {
    if !Calm(pc) || j > Frontier(pc, |lines|) then pass else
    pass.(disturbed := true,
          slips := set k: nat | k < Frontier(pc, |lines|) && k + 1 < |lines| &&
                                if j <= k + 1 && k <= j + 1 then Less(lines[k + 1], lines[k]) else k in pass.slips)
  }

  function Moved(pc: Pc, n: nat, swaps: bool, finished: bool): Pc {
    match pc
    case Sleep => if finished then Exited else StartPass
    case StartPass => LockNode(0, true)
    case LockNode(j, calm) => AtNode(j, calm)
    case AtNode(j, calm) => if j + 1 < n then LockNext(j, calm) else UnlockNode(j, calm)
    case LockNext(j, calm) => Compare(j, calm)
    case Compare(j, calm) => UnlockNext(j, calm && !swaps)
    case UnlockNext(j, calm) => UnlockNode(j, calm)
    case UnlockNode(j, calm) => Advance(j, calm)
    case Advance(j, calm) => if j + 1 < n then LockNode(j + 1, calm) else EndPass(calm)
    case EndPass(calm) => if calm then Sleep else StartPass
    case PushLock(j, line) => PushAt(j, line)
    case PushAt(j, line) => if j + 1 < n then PushOn(j, line) else PushDone(j)
    case PushOn(j, line) => PushLock(j + 1, line)
    case PushDone(j) => PushIdle
    case _ => pc
  }

  function LocksAfter(locks: seq<Lock>, i: nat, op: Op): (r: seq<Lock>)
    requires !op.Keep? ==> op.k < |locks|
    ensures |r| == |locks|
  {
    match op
    case Take(k) => locks[k := HeldBy(i)]
    case Drop(k) => locks[k := Free]
    case Keep => locks
  }

  function AfterSwap(s: State, i: nat, lines: seq<Text>, j: nat): (r: seq<Pass>)
    requires Shape(s) && j + 1 < |lines|
    ensures |r| == |s.passes|
    ensures forall t :: 0 <= t < |r| ==>
              r[t] == if t == i then s.passes[t] else PassAfterSwap(s.passes[t], s.threads[t], lines, j)
  {
    seq(|s.passes|, t requires 0 <= t < |s.passes| =>
        if t == i then s.passes[t] else PassAfterSwap(s.passes[t], s.threads[t], lines, j))
  }

  function AfterAppend(s: State, line: Text): (r: seq<Pass>)
    requires Shape(s)
    ensures |r| == |s.passes|
    ensures forall t :: 0 <= t < |r| ==> r[t] == PassAfterAppend(s.passes[t], s.threads[t], s.lines, line)
  {
    seq(|s.passes|, t requires 0 <= t < |s.passes| => PassAfterAppend(s.passes[t], s.threads[t], s.lines, line))
  }

  function Act(s: State, i: nat): (s': State)
    requires Shape(s) && i < |s.threads| && Placed(s.threads[i], |s.lines|) && Enabled(s, i)
    ensures Shape(s') && |s'.threads| == |s.threads|
  {
    var pc, n := s.threads[i], |s.lines|;
    var swaps := Swaps(pc, s.lines);
    var s1 := s.(threads := s.threads[i := Moved(pc, n, swaps, s.finished)], locks := LocksAfter(s.locks, i, OpOf(pc)));
    if swaps then
      var lines := Swap(s.lines, pc.j);
      s1.(lines := lines, swaps := s.swaps + 1, passes := AfterSwap(s, i, lines, pc.j))
    else if Appends(pc, n) then
      var lines := s.lines + [pc.line];
      s1.(lines := lines, locks := s1.locks + [Free], appended := s.appended + [pc.line],
          swaps := 0, base := Inversions(lines), noisy := 0, passes := AfterAppend(s, pc.line))
    else if pc.StartPass? then s1.(passes := s.passes[i := Pass(n, {}, false)])
    else if pc == EndPass(false) then s1.(noisy := s.noisy + 1)
    else s1
  }

  /** A thread acts, an idle appender is given a line, or the interrupt asks the sorters to stop. */
  datatype Event = Step(i: nat) | Give(i: nat, line: Text) | Interrupt

  predicate Possible(s: State, e: Event) {
    Shape(s) &&
    match e
    case Step(i) => i < |s.threads| && Placed(s.threads[i], |s.lines|) && Enabled(s, i)
    case Give(i, _) => i < |s.threads| && s.threads[i].PushIdle?
    case Interrupt => true
  }

  function Next(s: State, e: Event): (s': State)
    requires Possible(s, e)
    ensures Shape(s') && |s'.threads| == |s.threads|
  {
    match e
    case Step(i) => Act(s, i)
    case Give(i, line) => s.(threads := s.threads[i := PushLock(0, line)])
    case Interrupt => s.(finished := true)
  }

  function Init(lines: seq<Text>, sorters: nat, appenders: nat): (s: State)
    requires lines != []
    ensures Shape(s)
  {
    State(lines, seq(|lines|, _ => Free), false,
          seq(sorters + appenders, i => if i < sorters then Sleep else PushIdle), [], 0, Inversions(lines), 0,
          seq(sorters + appenders, _ => Pass(|lines|, {}, false)))
  }

  predicate Runs(s: State, events: seq<Event>)
    decreases |events|
  {
    events == [] || (Possible(s, events[0]) && Runs(Next(s, events[0]), events[1..]))
  }

  function Run(s: State, events: seq<Event>): (s': State)
    requires Runs(s, events)
    ensures |s'.threads| == |s.threads| && (Shape(s) ==> Shape(s'))
    decreases |events|
  {
    if events == [] then s else Run(Next(s, events[0]), events[1..])
  }

  // ---------- the invariant ----------

  predicate Holds(pc: Pc, k: nat) {
    match pc
    case AtNode(j, _) => k == j
    case LockNext(j, _) => k == j
    case Compare(j, _) => k == j || k == j + 1
    case UnlockNext(j, _) => k == j || k == j + 1
    case UnlockNode(j, _) => k == j
    case PushAt(j, _) => k == j
    case PushOn(j, _) => k == j
    case PushDone(j) => k == j
    case _ => false
  }

  ghost predicate LocksHeld(s: State)
    requires Shape(s)
  {
    && (forall k, i :: 0 <= k < |s.locks| && 0 <= i < |s.threads| ==> (s.locks[k] == HeldBy(i) <==> Holds(s.threads[i], k)))
    && (forall k :: 0 <= k < |s.locks| && s.locks[k].HeldBy? ==> s.locks[k].who < |s.threads|)
  }

  ghost predicate AllPlaced(s: State) {
    forall i :: 0 <= i < |s.threads| ==> Placed(s.threads[i], |s.lines|)
  }

  /** No line is lost or made up, and every swap since the last append has removed one inversion. */
  ghost predicate Accounted(initial: seq<Text>, s: State) {
    && multiset(s.lines) == multiset(initial) + multiset(s.appended)
    && s.swaps + Inversions(s.lines) == s.base <= MostInversions(|s.lines|)
  }

  /** A sorter that has swapped in the pass under way. */
  function Stirred(pc: Pc): int {
    if InPass(pc) && !pc.calm then 1 else 0
  }

  /** Every pass that has swapped, ended or under way, accounts for a swap, unless it began before the last append. */
  ghost predicate Paced(s: State) {
    s.noisy + Sum(s.threads, Stirred) <= s.swaps + |s.threads|
  }

  ghost predicate Inv(initial: seq<Text>, s: State) {
    Shape(s) && LocksHeld(s) && AllPlaced(s) && Accounted(initial, s) && Paced(s)
  }

  /** No two threads hold the lock of one node. */
  ghost predicate Exclusive(s: State) {
    forall i, j, k :: 0 <= i < j < |s.threads| && 0 <= k < |s.lines| ==>
      !(Holds(s.threads[i], k) && Holds(s.threads[j], k))
  }

  lemma InitInv(lines: seq<Text>, sorters: nat, appenders: nat)
    requires lines != []
    ensures Inv(lines, Init(lines, sorters, appenders))
  {
    InversionsBound(lines);
    SumBounds(Init(lines, sorters, appenders).threads, Stirred, 0, 0);
  }

  lemma {:induction false} SwapKeepsLines(v: seq<Text>, i: nat)
    requires i + 1 < |v|
    ensures multiset(Swap(v, i)) == multiset(v)
  {
  }

  lemma MovedPlaced(pc: Pc, n: nat, swaps: bool, finished: bool, n': nat)
    requires Placed(pc, n) && 1 <= n <= n'
    ensures Placed(Moved(pc, n, swaps, finished), n')
  {
  }

  /** A thread takes a lock it lacks and drops one it has, and then holds just what it should. */
  lemma MovedHolds(pc: Pc, n: nat, swaps: bool, finished: bool, k: nat)
    requires Placed(pc, n)
    ensures var op := OpOf(pc);
            && (op == Take(k) ==> !Holds(pc, k)) && (op == Drop(k) ==> Holds(pc, k))
            && (Holds(Moved(pc, n, swaps, finished), k) <==> op == Take(k) || (Holds(pc, k) && op != Drop(k)))
            && (Holds(pc, k) ==> k < n)
  {
  }

  lemma ActLocks(s: State, i: nat)
    requires Shape(s) && i < |s.threads| && AllPlaced(s) && Enabled(s, i) && LocksHeld(s)
    ensures LocksHeld(Act(s, i))
  {
    var s', pc, n := Act(s, i), s.threads[i], |s.lines|;
    forall k, t | 0 <= k < |s'.locks| && 0 <= t < |s.threads|
      ensures s'.locks[k] == HeldBy(t) <==> Holds(s'.threads[t], k)
    {
      assert Placed(s.threads[t], n);
      MovedHolds(pc, n, Swaps(pc, s.lines), s.finished, k);
      MovedHolds(s.threads[t], n, false, false, k);
      if k < n {
        assert s.locks[k] == HeldBy(t) <==> Holds(s.threads[t], k);
        assert s.locks[k] == HeldBy(i) <==> Holds(pc, k);
      }
    }
  }

  lemma ActPlaced(s: State, i: nat)
    requires Shape(s) && i < |s.threads| && AllPlaced(s) && Enabled(s, i)
    ensures AllPlaced(Act(s, i))
  {
    var s', pc, n := Act(s, i), s.threads[i], |s.lines|;
    MovedPlaced(pc, n, Swaps(pc, s.lines), s.finished, |s'.lines|);
    forall t | 0 <= t < |s.threads| && t != i
      ensures Placed(s'.threads[t], |s'.lines|)
    {
      assert Placed(s.threads[t], n);
    }
  }

  lemma ActKeepsLines(initial: seq<Text>, s: State, i: nat)
    requires Shape(s) && i < |s.threads| && AllPlaced(s) && Enabled(s, i)
    requires multiset(s.lines) == multiset(initial) + multiset(s.appended)
    ensures multiset(Act(s, i).lines) == multiset(initial) + multiset(Act(s, i).appended)
  {
    var pc := s.threads[i];
    if Swaps(pc, s.lines) {
      SwapKeepsLines(s.lines, pc.j);
    }
  }

  lemma ActAccounted(initial: seq<Text>, s: State, i: nat)
    requires Shape(s) && i < |s.threads| && AllPlaced(s) && Enabled(s, i) && Accounted(initial, s)
    ensures Accounted(initial, Act(s, i))
  {
    ActKeepsLines(initial, s, i);
    var pc := s.threads[i];
    if Swaps(pc, s.lines) {
      SwapRemovesOne(s.lines, pc.j);
    } else if Appends(pc, |s.lines|) {
      InversionsBound(s.lines + [pc.line]);
    }
  }

  lemma ActPaced(s: State, i: nat)
    requires Shape(s) && i < |s.threads| && AllPlaced(s) && Enabled(s, i) && Paced(s)
    ensures Paced(Act(s, i))
  {
    var pc := s.threads[i];
    assert Placed(pc, |s.lines|);
    SumUpdate(s.threads, i, Act(s, i).threads[i], Stirred);
    SumBounds(Act(s, i).threads, Stirred, 0, 1);
  }

  lemma NextInv(initial: seq<Text>, s: State, e: Event)
    requires Inv(initial, s) && Possible(s, e)
    ensures Inv(initial, Next(s, e))
  {
    if e.Step? {
      ActLocks(s, e.i);
      ActPlaced(s, e.i);
      ActAccounted(initial, s, e.i);
      ActPaced(s, e.i);
    } else if e.Give? {
      SumUpdate(s.threads, e.i, PushLock(0, e.line), Stirred);
    }
  }

  lemma {:induction false} RunInv(initial: seq<Text>, s: State, events: seq<Event>)
    requires Inv(initial, s) && Runs(s, events)
    ensures Inv(initial, Run(s, events))
    decreases |events|
  {
    if events != [] {
      NextInv(initial, s, events[0]);
      RunInv(initial, Next(s, events[0]), events[1..]);
    }
  }

  /** However many sorters and appenders: lines are only ever added by appends, each swap since the last append has
      removed one inversion, so there are at most n(n-1)/2 of them, the passes of all sorters that have swapped are no
      more than these and one for each thread, and no two threads hold one lock. */
  lemma EveryRun(lines: seq<Text>, sorters: nat, appenders: nat, events: seq<Event>)
    requires lines != [] && Runs(Init(lines, sorters, appenders), events)
    ensures var s := Run(Init(lines, sorters, appenders), events);
            && multiset(s.lines) == multiset(lines) + multiset(s.appended)
            && s.swaps == s.base - Inversions(s.lines)
            && 2 * s.swaps <= |s.lines| * (|s.lines| - 1) && s.noisy <= s.swaps + sorters + appenders
            && Exclusive(s)
  {
    InitInv(lines, sorters, appenders);
    RunInv(lines, Init(lines, sorters, appenders), events);
    InvIsSafe(lines, Run(Init(lines, sorters, appenders), events));
  }

  lemma InvIsSafe(initial: seq<Text>, s: State)
    requires Inv(initial, s)
    ensures 2 * s.swaps <= |s.lines| * (|s.lines| - 1) && s.noisy <= s.swaps + |s.threads|
    ensures Exclusive(s)
  {
    MostInversionsForm(|s.lines|);
    SumBounds(s.threads, Stirred, 0, 1);
    forall i, j, k | 0 <= i < j < |s.threads| && 0 <= k < |s.lines|
      ensures !(Holds(s.threads[i], k) && Holds(s.threads[j], k))
    {
      assert s.locks[k] == HeldBy(i) ==> s.locks[k] != HeldBy(j);
    }
  }

  // ---------- no deadlock ----------

  /** Locks are awaited in list order only, so whoever waits for a lock waits for someone further on. */
  lemma {:induction false} NoDeadlock(initial: seq<Text>, s: State, i: nat) returns (t: nat)
    requires Inv(initial, s) && i < |s.threads| && !s.threads[i].Exited? && !s.threads[i].PushIdle?
    ensures t < |s.threads| && Placed(s.threads[t], |s.lines|) && Enabled(s, t)
    decreases if OpOf(s.threads[i]).Take? then |s.lines| - OpOf(s.threads[i]).k else 0
  {
    assert Placed(s.threads[i], |s.lines|);
    if Enabled(s, i) {
      t := i;
    } else {
      var k := OpOf(s.threads[i]).k;
      var w := s.locks[k].who;
      assert Holds(s.threads[w], k) && Placed(s.threads[w], |s.lines|);
      if Enabled(s, w) {
        t := w;
      } else {
        assert s.threads[w].LockNext? && OpOf(s.threads[w]).k == k + 1;
        t := NoDeadlock(initial, s, w);
      }
    }
  }
}

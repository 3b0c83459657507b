/** A bounded message queue over two semaphores and a mutex, which can be dropped: every thread blocked
    in a put or a get must then come back (tamplon/lab25/myQueue.c). */
module BoundedQueue {
  import opened Sums
  import opened Sync
  import opened LinkedQueue

  const MAX_LENGTH := 80

  /** The text that is stored for a message. */
  function Cut(msg: Message): Message {
    if |msg| > MAX_LENGTH then msg[..MAX_LENGTH] else msg
  }

  datatype Call = Put(msg: Message) | Get | Drop

  /** How a call ended: a put accepted its message, a get delivered one, the queue was dropped before, or it was a drop. */
  datatype Outcome = Sent | Received | Refused | Dropped

  /** The next action of a thread; from `PutCheck`, `GetCheck` and `DropMark` on it holds the mutex. */
  datatype Pc =
    | Idle
    | PutWait(msg: Message) | PutLock(msg: Message) | PutCheck(msg: Message)
    | PutPush(msg: Message) | PutPostItem(msg: Message) | PutRefuse
    | GetWait | GetLock | GetCheck | GetPop | GetPostSlot(msg: Message) | GetRefuse
    | DropLock | DropMark | DropPostItem | DropPostSlot
    | Unlock(ret: nat, outcome: Outcome)

  /** `slots` is `full_sem`, `items` is `empty_sem`. The fields from `given` on only record what happened: the messages
      put, in the order of their acceptance, and as they were stored, the messages delivered, what the puts and gets of
      these have returned, the messages and the number of gets turned away, and how often a drop has posted each
      semaphore. */
  datatype State = State(slots: nat, items: nat, mutex: Lock, dropped: bool, queue: seq<Message>, pcs: seq<Pc>,
                         given: seq<Message>, accepted: seq<Message>, delivered: seq<Message>,
                         sent: seq<nat>, received: seq<nat>, putsRefused: seq<Message>, getsRefused: nat,
                         itemDrops: nat, slotDrops: nat)

  function Init(capacity: nat, threads: nat): State {
    State(capacity, 0, Free, false, [], seq(threads, _ => Idle), [], [], [], [], [], [], 0, 0, 0)
  }

  function Goto(s: State, i: nat, pc: Pc): State
    requires i < |s.pcs|
  {
    s.(pcs := s.pcs[i := pc])
  }

  predicate Enabled(s: State, i: nat)
    requires i < |s.pcs|
  {
    match s.pcs[i]
    case Idle => false
    case PutWait(_) => s.slots > 0
    case GetWait => s.items > 0
    case PutLock(_) => s.mutex.Free?
    case GetLock => s.mutex.Free?
    case DropLock => s.mutex.Free?
    case _ => true
  }

  function Act(s: State, i: nat): (s': State)
    requires i < |s.pcs| && Enabled(s, i)
    ensures |s'.pcs| == |s.pcs|
  {
    match s.pcs[i]
    case PutWait(msg) => Goto(s, i, PutLock(msg)).(slots := s.slots - 1)
    case PutLock(msg) => Goto(s, i, PutCheck(msg)).(mutex := HeldBy(i))
    case PutCheck(msg) =>
      if s.dropped then Goto(s, i, PutRefuse).(putsRefused := s.putsRefused + [msg]) else Goto(s, i, PutPush(msg))
    case PutRefuse => Goto(s, i, Unlock(0, Refused)).(slots := s.slots + 1)
    case PutPush(msg) =>
      Goto(s, i, PutPostItem(msg)).(queue := Pushed(s.queue, Cut(msg)), given := s.given + [msg],
                                    accepted := s.accepted + [Cut(msg)])
    case PutPostItem(msg) => Goto(s, i, Unlock(|msg|, Sent)).(items := s.items + 1)
    case GetWait => Goto(s, i, GetLock).(items := s.items - 1)
    case GetLock => Goto(s, i, GetCheck).(mutex := HeldBy(i))
    case GetCheck => Goto(s, i, if s.dropped then GetRefuse else GetPop)
    case GetPop =>
      (match PopResult(s.queue)
       case Nothing => Goto(s, i, GetRefuse)
       case Just(msg) => Goto(s, i, GetPostSlot(msg)).(queue := PopRest(s.queue), delivered := s.delivered + [msg]))
    case GetPostSlot(msg) => Goto(s, i, Unlock(|msg|, Received)).(slots := s.slots + 1)
    case GetRefuse => Goto(s, i, Unlock(0, Refused)).(items := s.items + 1, getsRefused := s.getsRefused + 1)
    case DropLock => Goto(s, i, DropMark).(mutex := HeldBy(i))
    case DropMark => Goto(s, i, DropPostItem).(dropped := true)
    case DropPostItem => Goto(s, i, DropPostSlot).(items := s.items + 1, itemDrops := s.itemDrops + 1)
    case DropPostSlot => Goto(s, i, Unlock(0, Dropped)).(slots := s.slots + 1, slotDrops := s.slotDrops + 1)
    case Unlock(n, Sent) => Goto(s, i, Idle).(mutex := Free, sent := s.sent + [n])
    case Unlock(n, Received) => Goto(s, i, Idle).(mutex := Free, received := s.received + [n])
    case Unlock(_, _) => Goto(s, i, Idle).(mutex := Free)
  }

  function Entry(call: Call): Pc {
    match call
    case Put(msg) => PutWait(msg)
    case Get => GetWait
    case Drop => DropLock
  }

  /** Either a thread takes its next action, or an idle thread enters a call. */
  datatype Event = Step(i: nat) | Enter(i: nat, call: Call)

  predicate Possible(s: State, e: Event) {
    e.i < |s.pcs| && match e case Step(i) => Enabled(s, i) case Enter(i, _) => s.pcs[i].Idle?
  }

  function Next(s: State, e: Event): (s': State)
    requires Possible(s, e)
    ensures |s'.pcs| == |s.pcs|
  {
    match e
    case Step(i) => Act(s, i)
    case Enter(i, call) => Goto(s, i, Entry(call))
  }

  predicate Runs(s: State, events: seq<Event>)
    decreases |events|
  {
    events == [] || (Possible(s, events[0]) && Runs(Next(s, events[0]), events[1..]))
  }

  function Run(s: State, events: seq<Event>): (s': State)
    requires Runs(s, events)
    ensures |s'.pcs| == |s.pcs|
    decreases |events|
  {
    if events == [] then s else Run(Next(s, events[0]), events[1..])
  }

  // ---------- the invariant ----------

  predicate InMutex(pc: Pc) {
    || pc.PutCheck? || pc.PutPush? || pc.PutPostItem? || pc.PutRefuse?
    || pc.GetCheck? || pc.GetPop? || pc.GetPostSlot? || pc.GetRefuse?
    || pc.DropMark? || pc.DropPostItem? || pc.DropPostSlot? || pc.Unlock?
  }

  /** A slot taken by a put that has not pushed, or freed by a get that has not posted. */
  function HoldsSlot(pc: Pc): int {
    if pc.PutLock? || pc.PutCheck? || pc.PutPush? || pc.PutRefuse? || pc.GetPostSlot? then 1 else 0
  }

  /** An item taken by a get that has not popped, or pushed by a put that has not posted. */
  function HoldsItem(pc: Pc): int {
    if pc.GetLock? || pc.GetCheck? || pc.GetPop? || pc.GetRefuse? || pc.PutPostItem? then 1 else 0
  }

  ghost predicate MutexHeld(s: State) {
    && (forall i :: 0 <= i < |s.pcs| ==> (s.mutex == HeldBy(i) <==> InMutex(s.pcs[i])))
    && (s.mutex.HeldBy? ==> s.mutex.who < |s.pcs|)
  }

  /** Between the check of `dropped` and the unlock, `dropped` does not change. */
  ghost predicate DropState(s: State) {
    && (forall i :: 0 <= i < |s.pcs| && (s.pcs[i].PutPush? || s.pcs[i].GetPop?) ==> !s.dropped)
    && (forall i :: 0 <= i < |s.pcs| && (s.pcs[i].DropPostItem? || s.pcs[i].DropPostSlot?) ==> s.dropped)
    && (!s.dropped ==> s.itemDrops == 0 && s.slotDrops == 0)
    && (s.dropped && s.itemDrops == 0 ==> exists i :: 0 <= i < |s.pcs| && s.pcs[i].DropPostItem?)
    && (s.dropped && s.slotDrops == 0 ==>
          exists i :: 0 <= i < |s.pcs| && (s.pcs[i].DropPostItem? || s.pcs[i].DropPostSlot?))
  }

  ghost predicate Conserved(capacity: nat, s: State) {
    && s.slots + |s.queue| + Sum(s.pcs, HoldsSlot) == capacity + s.slotDrops
    && s.items + Sum(s.pcs, HoldsItem) == |s.queue| + s.itemDrops
  }

  predicate AllCut(given: seq<Message>, stored: seq<Message>) {
    |stored| == |given| && forall k :: 0 <= k < |given| ==> stored[k] == Cut(given[k])
  }

  ghost predicate InOrder(s: State) {
    s.accepted == s.delivered + s.queue && AllCut(s.given, s.accepted)
  }

  function Lengths(messages: seq<Message>): seq<nat> {
    seq(|messages|, k requires 0 <= k < |messages| => |messages[k]|)
  }

  /** What the thread in the mutex is about to return for a message it has pushed. */
  function ToSend(s: State): seq<nat> {
    if s.mutex.Free? || s.mutex.who >= |s.pcs| then [] else
    match s.pcs[s.mutex.who]
    case PutPostItem(msg) => [|msg|]
    case Unlock(n, Sent) => [n]
    case _ => []
  }

  /** And for one it has popped. */
  function ToReceive(s: State): seq<nat> {
    if s.mutex.Free? || s.mutex.who >= |s.pcs| then [] else
    match s.pcs[s.mutex.who]
    case GetPostSlot(msg) => [|msg|]
    case Unlock(n, Received) => [n]
    case _ => []
  }

  /** Each put returns the length of its message, uncut, and each get that of what it delivers. */
  ghost predicate Answered(s: State) {
    s.sent + ToSend(s) == Lengths(s.given) && s.received + ToReceive(s) == Lengths(s.delivered)
  }

  /** A call that comes back without having sent or received anything; a drop is one. */
  predicate EmptyHanded(pc: Pc) {
    pc.Unlock? && !pc.outcome.Sent? && !pc.outcome.Received?
  }

  predicate Refusing(pc: Pc) {
    pc.PutRefuse? || pc.GetRefuse? || EmptyHanded(pc)
  }

  /** A put or a get is refused only by a dropped queue, and then returns 0. */
  ghost predicate Refusals(s: State) {
    && (forall i :: 0 <= i < |s.pcs| && Refusing(s.pcs[i]) ==> s.dropped)
    && (forall i :: 0 <= i < |s.pcs| && EmptyHanded(s.pcs[i]) ==> s.pcs[i].ret == 0)
  }

  ghost predicate Inv(capacity: nat, s: State) {
    && MutexHeld(s) && DropState(s) && Conserved(capacity, s) && InOrder(s) && Answered(s) && Refusals(s)
    && |s.queue| <= capacity
  }

  lemma InitInv(capacity: nat, threads: nat)
    ensures Inv(capacity, Init(capacity, threads))
  {
    var s := Init(capacity, threads);
    SumBounds(s.pcs, HoldsSlot, 0, 0);
    SumBounds(s.pcs, HoldsItem, 0, 0);
  }

  lemma ActMutex(s: State, i: nat)
    requires i < |s.pcs| && Enabled(s, i) && MutexHeld(s)
    ensures MutexHeld(Act(s, i))
  {
  }

  lemma ActDrop(s: State, i: nat)
    requires i < |s.pcs| && Enabled(s, i) && MutexHeld(s) && DropState(s)
    ensures DropState(Act(s, i))
  {
    var s' := Act(s, i);
    if s.pcs[i].DropMark? {
      assert s'.pcs[i].DropPostItem?;
    } else if s.pcs[i].DropPostItem? {
      assert s'.pcs[i].DropPostSlot?;
    } else if s.dropped && s.itemDrops == 0 {
      var k :| 0 <= k < |s.pcs| && s.pcs[k].DropPostItem?;
      assert s'.pcs[k].DropPostItem?;
    } else if s.dropped && s.slotDrops == 0 {
      var k :| 0 <= k < |s.pcs| && (s.pcs[k].DropPostItem? || s.pcs[k].DropPostSlot?);
      assert k != i ==> s'.pcs[k] == s.pcs[k];
    }
  }

  /** An action moves no other thread. */
  lemma ActGoto(s: State, i: nat)
    requires i < |s.pcs| && Enabled(s, i)
    ensures var s' := Act(s, i); s'.pcs == s.pcs[i := s'.pcs[i]]
  {
  }

  lemma ActConservesSlots(capacity: nat, s: State, i: nat)
    requires i < |s.pcs| && Enabled(s, i) && Conserved(capacity, s)
    ensures var s' := Act(s, i); s'.slots + |s'.queue| + Sum(s'.pcs, HoldsSlot) == capacity + s'.slotDrops
  {
    ActGoto(s, i);
    ActSlots(s, i);
    SumUpdate(s.pcs, i, Act(s, i).pcs[i], HoldsSlot);
  }

  /** The acting thread puts into its hands what it takes, and takes from them what it gives. */
  lemma ActSlots(s: State, i: nat)
    requires i < |s.pcs| && Enabled(s, i)
    ensures var s' := Act(s, i);
            s'.slots + |s'.queue| + HoldsSlot(s'.pcs[i]) - s'.slotDrops ==
            s.slots + |s.queue| + HoldsSlot(s.pcs[i]) - s.slotDrops
  {
  }

  lemma ActConservesItems(capacity: nat, s: State, i: nat)
    requires i < |s.pcs| && Enabled(s, i) && Conserved(capacity, s)
    ensures var s' := Act(s, i); s'.items + Sum(s'.pcs, HoldsItem) == |s'.queue| + s'.itemDrops
  {
    ActGoto(s, i);
    ActItems(s, i);
    SumUpdate(s.pcs, i, Act(s, i).pcs[i], HoldsItem);
  }

  lemma ActItems(s: State, i: nat)
    requires i < |s.pcs| && Enabled(s, i)
    ensures var s' := Act(s, i);
            s'.items + HoldsItem(s'.pcs[i]) - |s'.queue| - s'.itemDrops ==
            s.items + HoldsItem(s.pcs[i]) - |s.queue| - s.itemDrops
  {
  }

  /** Whoever is about to push finds room, and whoever is about to pop finds a message. */
  lemma PushAndPopSucceed(capacity: nat, s: State, i: nat)
    requires Inv(capacity, s) && i < |s.pcs|
    ensures s.pcs[i].PutPush? ==> |s.queue| < capacity
    ensures s.pcs[i].GetPop? ==> s.queue != []
  {
    SumAtLeast(s.pcs, HoldsSlot, i);
    SumAtLeast(s.pcs, HoldsItem, i);
    SumBounds(s.pcs, HoldsSlot, 0, 1);
    SumBounds(s.pcs, HoldsItem, 0, 1);
  }

  lemma ActOrder(s: State, i: nat)
    requires i < |s.pcs| && Enabled(s, i) && InOrder(s)
    ensures InOrder(Act(s, i))
  {
    var s', pc := Act(s, i), s.pcs[i];
    if pc.PutPush? {
      AppendCut(s.given, s.accepted, pc.msg);
    } else {
      ActTakesInOrder(s, i);
    }
  }

  /** Without a push, nothing is accepted, and what a pop takes out of the queue it delivers. */
  lemma ActTakesInOrder(s: State, i: nat)
    requires i < |s.pcs| && Enabled(s, i) && !s.pcs[i].PutPush?
    ensures var s' := Act(s, i);
            && s'.given == s.given && s'.accepted == s.accepted
            && s'.delivered + s'.queue == s.delivered + s.queue
  {
    if s.pcs[i].GetPop? && s.queue != [] {
      assert s.queue == [s.queue[0]] + s.queue[1..];
    }
  }

  lemma AppendCut(given: seq<Message>, stored: seq<Message>, msg: Message)
    requires AllCut(given, stored)
    ensures AllCut(given + [msg], stored + [Cut(msg)])
  {
  }

  lemma ActAnswers(s: State, i: nat)
    requires i < |s.pcs| && Enabled(s, i) && MutexHeld(s) && Answered(s)
    ensures Answered(Act(s, i))
  {
    var s', pc := Act(s, i), s.pcs[i];
    if InMutex(pc) {
      assert s.mutex == HeldBy(i);
      assert Lengths(s'.given) == if pc.PutPush? then Lengths(s.given) + [|pc.msg|] else Lengths(s.given);
      assert pc.GetPop? && s.queue != [] ==> Lengths(s'.delivered) == Lengths(s.delivered) + [|s.queue[0]|];
    }
  }

  lemma AnswersAre(s: State)
    requires Answered(s)
    ensures |s.sent| <= |s.given| && forall k :: 0 <= k < |s.sent| ==> s.sent[k] == |s.given[k]|
    ensures |s.received| <= |s.delivered| && forall k :: 0 <= k < |s.received| ==> s.received[k] == |s.delivered[k]|
  {
    assert forall k :: 0 <= k < |s.sent| ==> Lengths(s.given)[k] == s.sent[k];
    assert forall k :: 0 <= k < |s.received| ==> Lengths(s.delivered)[k] == s.received[k];
  }

  lemma ActRefuses(s: State, i: nat)
    requires i < |s.pcs| && Enabled(s, i) && Refusals(s) && DropState(s) && (s.pcs[i].GetPop? ==> s.queue != [])
    ensures Refusals(Act(s, i))
  {
  }

  lemma NextInv(capacity: nat, s: State, e: Event)
    requires Inv(capacity, s) && Possible(s, e)
    ensures Inv(capacity, Next(s, e))
  {
    match e
    case Step(i) =>
      ActMutex(s, i);
      ActDrop(s, i);
      ActConservesSlots(capacity, s, i);
      ActConservesItems(capacity, s, i);
      ActOrder(s, i);
      PushAndPopSucceed(capacity, s, i);
      ActAnswers(s, i);
      ActRefuses(s, i);
    case Enter(i, call) =>
      EnterInv(capacity, s, i, call);
  }

  lemma EnterInv(capacity: nat, s: State, i: nat, call: Call)
    requires Inv(capacity, s) && i < |s.pcs| && s.pcs[i].Idle?
    ensures Inv(capacity, Goto(s, i, Entry(call)))
  {
    SumUpdate(s.pcs, i, Entry(call), HoldsSlot);
    SumUpdate(s.pcs, i, Entry(call), HoldsItem);
    EnterDrop(s, i, call);
  }

  lemma EnterDrop(s: State, i: nat, call: Call)
    requires i < |s.pcs| && s.pcs[i].Idle? && DropState(s)
    ensures DropState(Goto(s, i, Entry(call)))
  {
    var s' := Goto(s, i, Entry(call));
    if s.dropped && s.itemDrops == 0 {
      var k :| 0 <= k < |s.pcs| && s.pcs[k].DropPostItem?;
      assert s'.pcs[k].DropPostItem?;
    }
    if s.dropped && s.slotDrops == 0 {
      var k :| 0 <= k < |s.pcs| && (s.pcs[k].DropPostItem? || s.pcs[k].DropPostSlot?);
      assert s'.pcs[k] == s.pcs[k];
    }
  }

  lemma {:induction false} RunInv(capacity: nat, s: State, events: seq<Event>)
    requires Inv(capacity, s) && Runs(s, events)
    ensures Inv(capacity, Run(s, events))
    decreases |events|
  {
    if events != [] {
      NextInv(capacity, s, events[0]);
      RunInv(capacity, Next(s, events[0]), events[1..]);
    }
  }

  // ---------- every call is accounted for ----------

  /** The messages of the puts that have not been accepted or refused. */
  ghost function Pending(pcs: seq<Pc>): Bag<Message> {
    Collected(pcs, PendingOf)
  }

  predicate Asking(pc: Pc) {
    pc.PutWait? || pc.PutLock? || pc.PutCheck? || pc.PutPush?
  }

  function PendingOf(pc: Pc): Bag<Message> {
    if Asking(pc) then multiset{pc.msg} else multiset{}
  }

  /** The gets that have neither taken a message nor been refused, and the drops that have not posted both. */
  function GetPending(pc: Pc): int {
    if pc.GetWait? || pc.GetLock? || pc.GetCheck? || pc.GetPop? || pc.GetRefuse? then 1 else 0
  }

  function DropPending(pc: Pc): int {
    if pc.DropLock? || pc.DropMark? || pc.DropPostItem? || pc.DropPostSlot? then 1 else 0
  }

  /** The messages that the calls of a run put, and how many of its calls are gets and drops. */
  function PutBy(events: seq<Event>): Bag<Message> {
    if events == [] then multiset{} else PutBy(events[1..]) + PutOf(events[0])
  }

  function PutOf(e: Event): Bag<Message> {
    match e case Enter(_, Put(msg)) => multiset{msg} case _ => multiset{}
  }

  function GetsIn(events: seq<Event>): nat {
    if events == [] then 0 else GetsIn(events[1..]) + GetsOf(events[0])
  }

  function GetsOf(e: Event): nat {
    match e case Enter(_, Get) => 1 case _ => 0
  }

  function DropsIn(events: seq<Event>): nat {
    if events == [] then 0 else DropsIn(events[1..]) + DropsOf(events[0])
  }

  function DropsOf(e: Event): nat {
    match e case Enter(_, Drop) => 1 case _ => 0
  }

  /** All messages ever put. */
  ghost function PutSoFar(s: State): Bag<Message> {
    multiset(s.given) + multiset(s.putsRefused) + Pending(s.pcs)
  }

  ghost function GetsSoFar(s: State): int {
    |s.delivered| + s.getsRefused + Sum(s.pcs, GetPending)
  }

  ghost function DropsSoFar(s: State): int {
    s.slotDrops + Sum(s.pcs, DropPending)
  }

  /** Where the message of a put goes when its thread acts: on, among the refused, or among those accepted. */
  lemma ActAsking(s: State, i: nat)
    requires i < |s.pcs| && Enabled(s, i)
    ensures var pc, pc' := s.pcs[i], Act(s, i).pcs[i];
            && (Asking(pc') <==> Asking(pc) && !pc.PutPush? && !(pc.PutCheck? && s.dropped))
            && (Asking(pc') ==> pc'.msg == pc.msg)
  {
  }

  lemma ActRecords(s: State, i: nat)
    requires i < |s.pcs| && Enabled(s, i)
    ensures var s', pc := Act(s, i), s.pcs[i];
            && s'.pcs == s.pcs[i := s'.pcs[i]]
            && s'.given == (if pc.PutPush? then s.given + [pc.msg] else s.given)
            && s'.putsRefused == (if pc.PutCheck? && s.dropped then s.putsRefused + [pc.msg] else s.putsRefused)
  {
  }

  lemma OwnMoved(s: State, i: nat, s': State)
    requires i < |s.pcs| && |s'.pcs| == |s.pcs|
    requires var pc, pc' := s.pcs[i], s'.pcs[i];
             && (Asking(pc') ==> Asking(pc) && pc'.msg == pc.msg)
             && s'.given == (if Asking(pc) && !Asking(pc') && pc.PutPush? then s.given + [pc.msg] else s.given)
             && s'.putsRefused ==
                (if Asking(pc) && !Asking(pc') && !pc.PutPush? then s.putsRefused + [pc.msg] else s.putsRefused)
    ensures multiset(s'.given) + multiset(s'.putsRefused) + PendingOf(s'.pcs[i]) ==
            multiset(s.given) + multiset(s.putsRefused) + PendingOf(s.pcs[i])
  {
  }

  lemma ActPuts(s: State, i: nat)
    requires i < |s.pcs| && Enabled(s, i)
    ensures PutSoFar(Act(s, i)) == PutSoFar(s)
  {
    var s' := Act(s, i);
    ActAsking(s, i);
    ActRecords(s, i);
    OwnMoved(s, i, s');
    CollectedUpdate(s.pcs, i, s'.pcs[i], PendingOf);
    Rebalance(multiset(s.given) + multiset(s.putsRefused), Pending(s.pcs), PendingOf(s.pcs[i]),
              multiset(s'.given) + multiset(s'.putsRefused), Pending(s'.pcs), PendingOf(s'.pcs[i]));
  }

  lemma EnterPuts(s: State, i: nat, call: Call)
    requires i < |s.pcs| && s.pcs[i].Idle?
    ensures PutSoFar(Goto(s, i, Entry(call))) == PutSoFar(s) + PutOf(Enter(i, call))
  {
    EntryPending(i, call);
    CollectedUpdate(s.pcs, i, Entry(call), PendingOf);
    MoreAtEnd(multiset(s.given) + multiset(s.putsRefused), Pending(s.pcs), PutOf(Enter(i, call)),
              Pending(s.pcs[i := Entry(call)]));
  }

  lemma EntryPending(i: nat, call: Call)
    ensures PendingOf(Entry(call)) == PutOf(Enter(i, call))
  {
  }

  lemma NextPuts(s: State, e: Event)
    requires Possible(s, e)
    ensures PutSoFar(Next(s, e)) == PutSoFar(s) + PutOf(e)
  {
    match e
    case Step(i) => ActPuts(s, i);
    case Enter(i, call) => EnterPuts(s, i, call);
  }

  lemma ActGets(s: State, i: nat)
    requires i < |s.pcs| && Enabled(s, i) && (s.pcs[i].GetPop? ==> s.queue != [])
    ensures GetsSoFar(Act(s, i)) == GetsSoFar(s)
  {
    SumUpdate(s.pcs, i, Act(s, i).pcs[i], GetPending);
  }

  lemma ActDrops(s: State, i: nat)
    requires i < |s.pcs| && Enabled(s, i)
    ensures DropsSoFar(Act(s, i)) == DropsSoFar(s)
  {
    SumUpdate(s.pcs, i, Act(s, i).pcs[i], DropPending);
  }

  lemma NextGets(s: State, e: Event)
    requires Possible(s, e) && (e.Step? && s.pcs[e.i].GetPop? ==> s.queue != [])
    ensures GetsSoFar(Next(s, e)) == GetsSoFar(s) + GetsOf(e)
  {
    match e
    case Step(i) => ActGets(s, i);
    case Enter(i, call) => SumUpdate(s.pcs, i, Entry(call), GetPending);
  }

  lemma NextDrops(s: State, e: Event)
    requires Possible(s, e)
    ensures DropsSoFar(Next(s, e)) == DropsSoFar(s) + DropsOf(e)
  {
    match e
    case Step(i) => ActDrops(s, i);
    case Enter(i, call) => SumUpdate(s.pcs, i, Entry(call), DropPending);
  }

  lemma {:induction false} RunPuts(s: State, events: seq<Event>)
    requires Runs(s, events)
    ensures PutSoFar(Run(s, events)) == PutSoFar(s) + PutBy(events)
    decreases |events|
  {
    if events != [] {
      NextPuts(s, events[0]);
      RunPuts(Next(s, events[0]), events[1..]);
      Regroup(PutSoFar(s), PutOf(events[0]), PutBy(events[1..]));
    }
  }

  lemma {:induction false} RunGets(capacity: nat, s: State, events: seq<Event>)
    requires Inv(capacity, s) && Runs(s, events)
    ensures GetsSoFar(Run(s, events)) == GetsSoFar(s) + GetsIn(events)
    decreases |events|
  {
    if events != [] {
      PushAndPopSucceed(capacity, s, events[0].i);
      NextGets(s, events[0]);
      NextInv(capacity, s, events[0]);
      RunGets(capacity, Next(s, events[0]), events[1..]);
    }
  }

  lemma {:induction false} RunDrops(s: State, events: seq<Event>)
    requires Runs(s, events)
    ensures DropsSoFar(Run(s, events)) == DropsSoFar(s) + DropsIn(events)
    decreases |events|
  {
    if events != [] {
      NextDrops(s, events[0]);
      RunDrops(Next(s, events[0]), events[1..]);
    }
  }

  lemma NothingYet(capacity: nat, threads: nat)
    ensures var s := Init(capacity, threads);
            PutSoFar(s) == multiset{} && GetsSoFar(s) == 0 && DropsSoFar(s) == 0
  {
    var s := Init(capacity, threads);
    CollectedNone(s.pcs, PendingOf);
    SumBounds(s.pcs, GetPending, 0, 0);
    SumBounds(s.pcs, DropPending, 0, 0);
  }

  /** Every put has its message accepted or refused, or is still under way; so has every get, and every drop posts both
      semaphores once. */
  lemma EveryCallCounts(capacity: nat, threads: nat, events: seq<Event>)
    requires Runs(Init(capacity, threads), events)
    ensures var s := Run(Init(capacity, threads), events);
            && PutBy(events) == PutSoFar(s) && GetsIn(events) == GetsSoFar(s) && DropsIn(events) == DropsSoFar(s)
  {
    var s := Init(capacity, threads);
    NothingYet(capacity, threads);
    RunPuts(s, events);
    RunDrops(s, events);
    InitInv(capacity, threads);
    RunGets(capacity, s, events);
  }

  /** Whatever the threads do: at most `capacity` messages are stored, a pop finds one, what was accepted is what was
      put, each message cut to 80 characters, and what was delivered is a prefix of that. Each put returns the length of
      its message as it was given, each get that of the message it delivers, and only a dropped queue refuses. */
  lemma EveryRunIsSafe(capacity: nat, threads: nat, events: seq<Event>)
    requires Runs(Init(capacity, threads), events)
    ensures var s := Run(Init(capacity, threads), events);
            && |s.queue| <= capacity
            && (forall i :: 0 <= i < threads && s.pcs[i].GetPop? ==> s.queue != [])
            && s.delivered <= s.accepted && s.accepted[|s.delivered|..] == s.queue
            && |s.accepted| == |s.given|
            && (forall k :: 0 <= k < |s.given| ==>
                  s.accepted[k] <= s.given[k] && |s.accepted[k]| == if |s.given[k]| > 80 then 80 else |s.given[k]|)
            && |s.sent| <= |s.given| && (forall k :: 0 <= k < |s.sent| ==> s.sent[k] == |s.given[k]|)
            && |s.received| <= |s.delivered| && (forall k :: 0 <= k < |s.received| ==> s.received[k] == |s.delivered[k]|)
            && (forall i :: 0 <= i < threads && Refusing(s.pcs[i]) ==> s.dropped)
            && (forall i :: 0 <= i < threads && EmptyHanded(s.pcs[i]) ==> s.pcs[i].ret == 0)
  {
    InitInv(capacity, threads);
    RunInv(capacity, Init(capacity, threads), events);
    var s := Run(Init(capacity, threads), events);
    AnswersAre(s);
    forall i | 0 <= i < threads && s.pcs[i].GetPop?
      ensures s.queue != []
    {
      PushAndPopSucceed(capacity, s, i);
    }
  }

  /** Once the queue is dropped no message moves any more. */
  lemma DroppedIsFrozen(capacity: nat, s: State, e: Event)
    requires Inv(capacity, s) && Possible(s, e) && s.dropped
    ensures var s' := Next(s, e);
            s'.dropped && s'.queue == s.queue && s'.accepted == s.accepted && s'.delivered == s.delivered
  {
  }

  // ---------- nobody stays blocked ----------

  predicate InPut(pc: Pc) {
    pc.PutWait? || pc.PutLock? || pc.PutCheck? || pc.PutPush? || pc.PutPostItem? || pc.PutRefuse?
  }

  predicate InGet(pc: Pc) {
    pc.GetWait? || pc.GetLock? || pc.GetCheck? || pc.GetPop? || pc.GetPostSlot? || pc.GetRefuse?
  }

  /** Everyone in a call is blocked. */
  ghost predicate Stuck(s: State) {
    forall i :: 0 <= i < |s.pcs| ==> !Enabled(s, i)
  }

  lemma HolderActs(s: State)
    requires MutexHeld(s) && s.mutex.HeldBy?
    ensures s.mutex.who < |s.pcs| && Enabled(s, s.mutex.who)
  {
    assert InMutex(s.pcs[s.mutex.who]);
  }

  /** If everyone is blocked, everyone waits on a semaphore: the mutex is free. */
  lemma StuckMeansWaiting(s: State)
    requires MutexHeld(s) && Stuck(s)
    ensures forall i :: 0 <= i < |s.pcs| ==>
              s.pcs[i].Idle? || (s.pcs[i].PutWait? && s.slots == 0) || (s.pcs[i].GetWait? && s.items == 0)
  {
    if s.mutex.HeldBy? {
      HolderActs(s);
    }
    forall i | 0 <= i < |s.pcs|
      ensures s.pcs[i].Idle? || (s.pcs[i].PutWait? && s.slots == 0) || (s.pcs[i].GetWait? && s.items == 0)
    {
      assert !Enabled(s, i);
    }
  }

  lemma WaitingCounts(capacity: nat, s: State)
    requires Inv(capacity, s) && Stuck(s)
    ensures s.slots + |s.queue| == capacity + s.slotDrops && s.items == |s.queue| + s.itemDrops
  {
    StuckMeansWaiting(s);
    SumBounds(s.pcs, HoldsSlot, 0, 0);
    SumBounds(s.pcs, HoldsItem, 0, 0);
  }

  /** Before a drop, if everyone in a call is blocked then puts wait only for room and gets only for messages. */
  lemma StuckOnlyWhenFullOrEmpty(capacity: nat, s: State, i: nat)
    requires Inv(capacity, s) && !s.dropped && Stuck(s) && i < |s.pcs| && !s.pcs[i].Idle?
    ensures if InPut(s.pcs[i]) then |s.queue| == capacity else s.queue == []
  {
    StuckMeansWaiting(s);
    WaitingCounts(capacity, s);
  }

  /** Before a drop, a put blocks for good only when the queue is full and a get only when it is empty: with one
      thread in a put and one in a get, someone can act. */
  lemma NoDeadlock(capacity: nat, s: State, putter: nat, getter: nat)
    requires Inv(capacity, s) && capacity > 0 && putter < |s.pcs| && getter < |s.pcs|
    requires InPut(s.pcs[putter]) && InGet(s.pcs[getter])
    ensures !Stuck(s)
  {
    if Stuck(s) {
      StuckMeansWaiting(s);
      WaitingCounts(capacity, s);
      assert false;
    }
  }

  /** After a drop nobody is stuck, because whoever was woken posts again what woke it. */
  lemma NobodyStuckAfterDrop(capacity: nat, s: State, i: nat)
    requires Inv(capacity, s) && s.dropped && i < |s.pcs| && !s.pcs[i].Idle?
    ensures !Stuck(s)
  {
    if Stuck(s) {
      StuckMeansWaiting(s);
      WaitingCounts(capacity, s);
      assert false;
    }
  }

  /** How many actions a call still has. */
  function Left(pc: Pc): int {
    match pc
    case Idle => 0
    case PutWait(_) => 6
    case PutLock(_) => 5
    case PutCheck(_) => 4
    case PutPush(_) => 3
    case PutPostItem(_) => 2
    case PutRefuse => 2
    case GetWait => 6
    case GetLock => 5
    case GetCheck => 4
    case GetPop => 3
    case GetPostSlot(_) => 2
    case GetRefuse => 2
    case DropLock => 5
    case DropMark => 4
    case DropPostItem => 3
    case DropPostSlot => 2
    case Unlock(_, _) => 1
  }

  lemma ActShortens(s: State, i: nat)
    requires i < |s.pcs| && Enabled(s, i)
    ensures Sum(Act(s, i).pcs, Left) < Sum(s.pcs, Left)
  {
    SumUpdate(s.pcs, i, Act(s, i).pcs[i], Left);
  }

  lemma {:induction false} StepsShorten(s: State, events: seq<Event>)
    requires Runs(s, events) && forall k :: 0 <= k < |events| ==> events[k].Step?
    ensures |events| + Sum(Run(s, events).pcs, Left) <= Sum(s.pcs, Left)
    decreases |events|
  {
    if events != [] {
      ActShortens(s, events[0].i);
      StepsShorten(Next(s, events[0]), events[1..]);
    }
  }

  /** After a drop, if everyone is blocked then everyone is back from its calls. */
  lemma StuckMeansIdle(capacity: nat, s: State)
    requires Inv(capacity, s) && s.dropped && Stuck(s)
    ensures forall i :: 0 <= i < |s.pcs| ==> s.pcs[i].Idle?
  {
    forall i | 0 <= i < |s.pcs|
      ensures s.pcs[i].Idle?
    {
      if !s.pcs[i].Idle? {
        NobodyStuckAfterDrop(capacity, s, i);
      }
    }
  }

  lemma StepsAreFew(s: State, events: seq<Event>)
    requires Runs(s, events) && forall k :: 0 <= k < |events| ==> events[k].Step?
    ensures |events| <= 6 * |s.pcs|
  {
    StepsShorten(s, events);
    LeftIsSmall(s.pcs);
    LeftIsSmall(Run(s, events).pcs);
  }

  lemma LeftIsSmall(pcs: seq<Pc>)
    ensures 0 <= Sum(pcs, Left) <= 6 * |pcs|
  {
    SumBounds(pcs, Left, 0, 6);
  }

  /** After a drop, whatever the schedule, every call in progress comes back within six actions for each thread. */
  lemma EveryCallReturnsAfterDrop(capacity: nat, s: State, events: seq<Event>)
    requires Inv(capacity, s) && s.dropped
    requires Runs(s, events) && forall k :: 0 <= k < |events| ==> events[k].Step?
    ensures |events| <= 6 * |s.pcs|
    ensures Stuck(Run(s, events)) ==> forall i :: 0 <= i < |s.pcs| ==> Run(s, events).pcs[i].Idle?
  {
    StepsAreFew(s, events);
    RunInv(capacity, s, events);
    RunStaysDropped(capacity, s, events);
    if Stuck(Run(s, events)) {
      StuckMeansIdle(capacity, Run(s, events));
    }
  }

  lemma {:induction false} RunStaysDropped(capacity: nat, s: State, events: seq<Event>)
    requires Inv(capacity, s) && s.dropped && Runs(s, events)
    ensures var s' := Run(s, events);
            s'.dropped && s'.queue == s.queue && s'.accepted == s.accepted && s'.delivered == s.delivered
    decreases |events|
  {
    if events != [] {
      NextInv(capacity, s, events[0]);
      DroppedIsFrozen(capacity, s, events[0]);
      RunStaysDropped(capacity, Next(s, events[0]), events[1..]);
    }
  }
}

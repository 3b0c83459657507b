/** The way of the appended lines of the concurrent sort: every line given to an appender gets into the list, soon. */
module ConcurrentSortLines {
  import opened ConcurrentSort
  import opened ConcurrentSortPasses
  import opened Sums
  import opened Sync
  import opened Texts

  // ---------- no line is lost on the way ----------

  /** The line that an appender has not linked yet. */
  function Carried(pc: Pc): Bag<Text> {
    if Carries(pc) then multiset{pc.line} else multiset{}
  }

  /** The lines given to the appenders of a run. */
  function GivenBy(events: seq<Event>): Bag<Text> {
    if events == [] then multiset{} else GivenBy(events[1..]) + GivenIn(events[0])
  }

  function GivenIn(e: Event): Bag<Text> {
    match e case Give(_, line) => multiset{line} case _ => multiset{}
  }

  ghost function GivenSoFar(s: State): Bag<Text> {
    multiset(s.appended) + Collected(s.threads, Carried)
  }

  predicate Carries(pc: Pc) {
    pc.PushLock? || pc.PushAt? || pc.PushOn?
  }

  /** A line is carried on until it is linked. */
  lemma ActCarries(s: State, i: nat)
    requires Shape(s) && i < |s.threads| && Placed(s.threads[i], |s.lines|) && Enabled(s, i)
    ensures var s', pc := Act(s, i), s.threads[i];
            && s'.threads == s.threads[i := s'.threads[i]]
            && s'.appended == (if Appends(pc, |s.lines|) then s.appended + [pc.line] else s.appended)
            && (Carries(s'.threads[i]) <==> Carries(pc) && !Appends(pc, |s.lines|))
            && (Carries(s'.threads[i]) ==> s'.threads[i].line == pc.line)
  {
  }

  lemma NextGiven(s: State, e: Event)
    requires Possible(s, e)
    ensures GivenSoFar(Next(s, e)) == GivenSoFar(s) + GivenIn(e)
  {
    match e
    case Step(i) =>
      var s' := Act(s, i);
      ActCarries(s, i);
      CollectedUpdate(s.threads, i, s'.threads[i], Carried);
      Rebalance(multiset(s.appended), Collected(s.threads, Carried), Carried(s.threads[i]),
                multiset(s'.appended), Collected(s'.threads, Carried), Carried(s'.threads[i]));
    case Give(i, line) =>
      CollectedUpdate(s.threads, i, PushLock(0, line), Carried);
      MoreAtEnd(multiset(s.appended), Collected(s.threads, Carried), multiset{line},
                Collected(s.threads[i := PushLock(0, line)], Carried));
    case Interrupt =>
  }

  lemma {:induction false} RunGiven(s: State, events: seq<Event>)
    requires Runs(s, events)
    ensures GivenSoFar(Run(s, events)) == GivenSoFar(s) + GivenBy(events)
    decreases |events|
  {
    if events != [] {
      NextGiven(s, events[0]);
      RunGiven(Next(s, events[0]), events[1..]);
      Regroup(GivenSoFar(s), GivenIn(events[0]), GivenBy(events[1..]));
    }
  }

  /** Every line given to an appender is in the list or on its way there. */
  lemma EveryLineArrives(lines: seq<Text>, sorters: nat, appenders: nat, events: seq<Event>)
    requires lines != [] && Runs(Init(lines, sorters, appenders), events)
    ensures var s := Run(Init(lines, sorters, appenders), events);
            && multiset(s.appended) + Collected(s.threads, Carried) == GivenBy(events)
            && multiset(s.lines) + Collected(s.threads, Carried) == multiset(lines) + GivenBy(events)
  {
    var s0 := Init(lines, sorters, appenders);
    CollectedNone(s0.threads, Carried);
    RunGiven(s0, events);
    EveryRun(lines, sorters, appenders, events);
  }

  // ---------- and it gets there ----------

  /** How many actions an appender has left for its line, in a list of at most `n`. */
  function Way(pc: Pc, n: nat): int {
    match pc
    case PushLock(j, _) => 3 * (n - j) + 1
    case PushAt(j, _) => 3 * (n - j)
    case PushOn(j, _) => 3 * (n - j) - 1
    case PushDone(_) => 1
    case _ => 0
  }

  function StepsOf(i: nat, events: seq<Event>): nat {
    if events == [] then 0 else StepsOf(i, events[1..]) + if events[0] == Step(i) then 1 else 0
  }

  function GivesTo(i: nat, events: seq<Event>): nat {
    if events == [] then 0 else GivesTo(i, events[1..]) + if events[0].Give? && events[0].i == i then 1 else 0
  }

  lemma {:induction false} LinesGrow(s: State, events: seq<Event>)
    requires Runs(s, events)
    ensures |s.lines| <= |Run(s, events).lines|
    decreases |events|
  {
    if events != [] {
      LinesGrow(Next(s, events[0]), events[1..]);
    }
  }

  lemma OnItsWay(s: State, i: nat, e: Event, n: nat)
    requires Possible(s, e) && i < |s.threads| && Appender(s.threads[i]) && Placed(s.threads[i], |s.lines|)
    requires |Next(s, e).lines| <= n
    ensures var pc, pc' := s.threads[i], Next(s, e).threads[i];
            && Appender(pc') && Placed(pc', |Next(s, e).lines|)
            && (if e == Step(i) then 1 else 0) + Way(pc', n) <=
               Way(pc, n) + if e.Give? && e.i == i then 3 * n + 1 else 0
  {
  }

  /** `most` for each line that the appender is given. */
  function Allowance(i: nat, events: seq<Event>, most: nat): nat {
    if events == [] then 0 else Allowance(i, events[1..], most) + if events[0].Give? && events[0].i == i then most else 0
  }

  lemma {:induction false} AllowanceIs(i: nat, events: seq<Event>, most: nat)
    ensures Allowance(i, events, most) == most * GivesTo(i, events)
  {
    if events != [] {
      AllowanceIs(i, events[1..], most);
      assert most * (GivesTo(i, events[1..]) + 1) == most * GivesTo(i, events[1..]) + most;
    }
  }

  lemma {:induction false} WayShrinks(s: State, i: nat, events: seq<Event>, n: nat)
    requires Runs(s, events) && i < |s.threads| && Appender(s.threads[i]) && Placed(s.threads[i], |s.lines|)
    requires 1 <= |s.lines| && |Run(s, events).lines| <= n
    ensures var way := Way(Run(s, events).threads[i], n);
            0 <= way <= Way(s.threads[i], n) + Allowance(i, events, 3 * n + 1) - StepsOf(i, events)
    decreases |events|
  {
    if events != [] {
      var next := Next(s, events[0]);
      LinesGrow(next, events[1..]);
      OnItsWay(s, i, events[0], n);
      WayShrinks(next, i, events[1..], n);
    }
  }

  /** An appender takes at most 3n + 1 actions for each line it is given, n being the length of the list at the end. */
  lemma PushesEnd(lines: seq<Text>, sorters: nat, appenders: nat, events: seq<Event>, i: nat)
    requires lines != [] && Runs(Init(lines, sorters, appenders), events) && sorters <= i < sorters + appenders
    ensures var s := Run(Init(lines, sorters, appenders), events);
            StepsOf(i, events) <= (3 * |s.lines| + 1) * GivesTo(i, events)
  {
    var s := Init(lines, sorters, appenders);
    WayShrinks(s, i, events, |Run(s, events).lines|);
    AllowanceIs(i, events, 3 * |Run(s, events).lines| + 1);
  }
}

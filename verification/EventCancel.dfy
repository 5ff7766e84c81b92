/** What a successful cancel of an event does (opsiclientd/EventProcessing.py, opsiclientd/Opsiclientd.py). */
module EventCancels {
  import opened EventProtocols
  import opened EventSafety

  predicate Marked(s: State, t: Id) {
    t in s.threads && s.threads[t].life.Running? && s.threads[t].shouldCancel
  }

  /** Where a marked thread goes unless an error leads it further on. */
  function MarkedNext(at: Point, actions: bool): Point {
    match at
    case Begin => Over
    case FirstLook => FinalLook
    case ActionLook => FinalLook
    case ActionDrop => Acting
    case Acting => LateLook
    case LateLook => FinalLook
    case LateDrop => Syncing
    case Syncing => FinalLook
    case FinalLook => Over
    case Reset => if actions then Shutdown else Over
    case Shutdown => LastDrop
    case LastDrop => Closing
    case Closing => Over
    case Over => Over
  }

  function Rank(at: Point): nat {
    match at
    case Begin => 13
    case FirstLook => 12
    case ActionLook => 11
    case ActionDrop => 10
    case Acting => 9
    case LateLook => 8
    case LateDrop => 7
    case Syncing => 6
    case FinalLook => 5
    case Reset => 4
    case Shutdown => 3
    case LastDrop => 2
    case Closing => 1
    case Over => 0
  }

  /** The points that are still ahead of a marked thread. */
  function Ahead(at: Point, actions: bool): set<Point>
    decreases Rank(at)
  {
    if at.Over? then {Over} else {at} + Ahead(MarkedNext(at, actions), actions)
  }

  lemma {:induction false} AheadOfAhead(p: Point, q: Point, actions: bool)
    requires q in Ahead(p, actions)
    ensures Ahead(q, actions) <= Ahead(p, actions)
    decreases Rank(p)
  {
    if p != q {
      AheadOfAhead(MarkedNext(p, actions), q, actions);
    }
  }

  lemma {:induction false} AlwaysOver(p: Point, actions: bool)
    ensures Over in Ahead(p, actions)
    decreases Rank(p)
  {
    if !p.Over? {
      AlwaysOver(MarkedNext(p, actions), actions);
    }
  }

  // ----- steps seen from one thread -----

  lemma {:induction false} CancelledKeepsMarks(threads: map<Id, Thread>, list: seq<Id>, t: Id)
    requires forall i :: 0 <= i < |list| ==> list[i] in threads
    requires t in threads && threads[t].shouldCancel
    ensures t in Cancelled(threads, list) && Cancelled(threads, list)[t].shouldCancel
    decreases |list|
  {
    if list == [] {
    } else if threads[list[0]].event.login {
      CancelledKeepsMarks(threads, list[1..], t);
    } else if threads[list[0]].cancelable {
      CancelledKeepsMarks(threads[list[0] := threads[list[0]].(shouldCancel := true)], list[1..], t);
    }
  }

  /** The steps of others change nothing of a thread but its mark, and they never take the mark away. */
  lemma OthersOnlyMark(s: State, step: Step, t: Id)
    requires Enabled(s, step) && t in s.threads && Actor(step) != ByThread(t)
    ensures t in Next(s, step).threads
    ensures Next(s, step).threads[t] == s.threads[t].(shouldCancel := Next(s, step).threads[t].shouldCancel)
    ensures s.threads[t].shouldCancel ==> Next(s, step).threads[t].shouldCancel
  {
    hide Cancelled, AllCancelable, CanProcess, Without;
    if step.Process? {
      ProcessOnlyMarks(s, step, t);
    }
  }

  lemma ProcessOnlyMarks(s: State, step: Step, t: Id)
    requires Enabled(s, step) && t in s.threads && step.Process?
    ensures t in Next(s, step).threads
    ensures Next(s, step).threads[t] == s.threads[t].(shouldCancel := Next(s, step).threads[t].shouldCancel)
    ensures s.threads[t].shouldCancel ==> Next(s, step).threads[t].shouldCancel
  {
    hide Cancelled, AllCancelable;
    CancelledOnlyMarks(s.threads, s.list);
    if s.threads[t].shouldCancel {
      CancelledKeepsMarks(s.threads, s.list, t);
    }
  }

  /** A marked thread keeps its mark, and each of its own steps leads to a point that is still ahead. */
  lemma MarkedOwnStep(s: State, step: Step, t: Id)
    requires Enabled(s, step) && t in s.threads && Actor(step) == ByThread(t) && s.threads[t].shouldCancel
    ensures t in Next(s, step).threads && Next(s, step).threads[t].shouldCancel
    ensures Next(s, step).threads[t].event == s.threads[t].event
    ensures Next(s, step).threads[t].at in Ahead(s.threads[t].at, s.threads[t].event.actions)
  {
    hide Ahead;
    var at, actions := s.threads[t].at, s.threads[t].event.actions;
    AlwaysOver(at, actions);
    AheadSelf(at, actions);
    FinalAhead(at, actions);
  }

  lemma AheadSelf(at: Point, actions: bool)
    ensures at in Ahead(at, actions) && MarkedNext(at, actions) in Ahead(at, actions)
  {
  }

  lemma FinalAhead(at: Point, actions: bool)
    ensures at in {FirstLook, ActionLook, ActionDrop, Acting, LateLook, LateDrop, Syncing} ==>
              FinalLook in Ahead(at, actions)
  {
    var next := MarkedNext(at, actions);
    AheadSelf(at, actions);
    AheadSelf(next, actions);
    AheadOfAhead(at, next, actions);
    var third := MarkedNext(next, actions);
    AheadSelf(third, actions);
    AheadOfAhead(at, third, actions);
  }

  /** After a successful cancel a thread never comes to a point that is not ahead of where it was then. */
  lemma {:induction false} MarkedRun(s: State, steps: seq<Step>, end: State, t: Id)
    requires Run(s, steps, end) && t in s.threads && s.threads[t].shouldCancel
    ensures t in end.threads && end.threads[t].shouldCancel && end.threads[t].event == s.threads[t].event
    ensures end.threads[t].at in Ahead(s.threads[t].at, s.threads[t].event.actions)
    decreases |steps|
  {
    hide Next, Enabled, Ahead, Actor;
    AheadSelf(s.threads[t].at, s.threads[t].event.actions);
    if steps != [] {
      var n := Next(s, steps[0]);
      if Actor(steps[0]) == ByThread(t) {
        MarkedOwnStep(s, steps[0], t);
      } else {
        OthersOnlyMark(s, steps[0], t);
      }
      MarkedRun(n, steps[1..], end, t);
      AheadOfAhead(s.threads[t].at, n.threads[t].at, s.threads[t].event.actions);
    }
  }

  // ----- all points ahead are reached -----

  /** The flag that a thread is about to write is the one that is due. */
  ghost predicate WritesDue(s: State) {
    forall t :: t in s.threads && s.threads[t].setting.Setting? ==> s.threads[t].setting == s.threads[t].Due()
  }

  lemma WritesDueStep(s: State, step: Step)
    requires Enabled(s, step) && WritesDue(s)
    ensures WritesDue(Next(s, step))
  {
    hide Next, Enabled, Actor;
    var n := Next(s, step);
    StepThreads(s, step);
    forall t | t in n.threads && n.threads[t].setting.Setting?
      ensures n.threads[t].setting == n.threads[t].Due()
    {
      if t in s.threads {
        if Actor(step) == ByThread(t) {
          OwnStepWritesDue(s, step, t);
        } else {
          OthersOnlyMark(s, step, t);
        }
      }
    }
  }

  lemma OwnStepWritesDue(s: State, step: Step, t: Id)
    requires Enabled(s, step) && WritesDue(s) && t in s.threads && Actor(step) == ByThread(t)
    ensures t in Next(s, step).threads
    ensures Next(s, step).threads[t].setting.Setting? ==>
              Next(s, step).threads[t].setting == Next(s, step).threads[t].Due()
  {
  }

  lemma {:induction false} RunWritesDue(s: State, steps: seq<Step>, end: State)
    requires Run(s, steps, end) && WritesDue(s)
    ensures WritesDue(end)
    decreases |steps|
  {
    hide Next, Enabled, WritesDue;
    if steps != [] {
      WritesDueStep(s, steps[0]);
      RunWritesDue(Next(s, steps[0]), steps[1..], end);
    }
  }

  lemma {:induction false} RunConcat(s: State, a: seq<Step>, m: State, b: seq<Step>, end: State)
    requires Run(s, a, m) && Run(m, b, end)
    ensures Run(s, a + b, end)
    decreases |a|
  {
    hide Next, Enabled;
    if a == [] {
      assert a + b == b;
    } else {
      RunConcat(Next(s, a[0]), a[1..], m, b, end);
      assert (a + b)[1..] == a[1..] + b;
    }
  }

  ghost predicate Leads(s: State, end: State) {
    exists steps :: Run(s, steps, end)
  }

  lemma LeadsOn(s: State, m: State, step: Step)
    requires Leads(s, m) && Enabled(m, step)
    ensures Leads(s, Next(m, step))
  {
    var steps :| Run(s, steps, m);
    RunExtended(s, steps, m, step);
  }

  lemma LeadsSelf(s: State)
    ensures Leads(s, s)
  {
    assert Run(s, [], s);
  }

  lemma LeadsTrans(s: State, m: State, end: State)
    requires Leads(s, m) && Leads(m, end)
    ensures Leads(s, end)
  {
    var a :| Run(s, a, m);
    var b :| Run(m, b, end);
    RunConcat(s, a, m, b, end);
  }

  lemma ReachableOn(s: State, end: State)
    requires Reachable(s) && Leads(s, end)
    ensures Reachable(end)
  {
    assert Leads(INITIAL, s);
    LeadsTrans(INITIAL, s, end);
  }

  lemma {:induction false} OthersRun(s: State, steps: seq<Step>, end: State, t: Id)
    requires Run(s, steps, end) && t in s.threads && s.threads[t].shouldCancel
    requires forall k :: 0 <= k < |steps| ==> Actor(steps[k]) != ByThread(t)
    ensures t in end.threads && end.threads[t] == s.threads[t]
    decreases |steps|
  {
    hide Next, Enabled, Actor;
    if steps != [] {
      OthersOnlyMark(s, steps[0], t);
      assert forall k :: 0 <= k < |steps[1..]| ==> steps[1..][k] == steps[k + 1];
      OthersRun(Next(s, steps[0]), steps[1..], end, t);
    }
  }

  /** The thread comes to a state in which it can take the lock or has it, without a step of its own. */
  lemma LockComesFree(s: State, t: Id) returns (n: State)
    requires Reachable(s) && Marked(s, t)
    ensures Leads(s, n) && t in n.threads && n.threads[t] == s.threads[t]
    ensures n.locked ==> Holds(n, ByThread(t))
  {
    hide Run;
    LeadsSelf(s);
    n := s;
    if s.locked && !Holds(s, ByThread(t)) {
      var h, steps, end := LockCanBeReleased(s);
      OthersRun(s, steps, end, t);
      n := end;
    }
  }

  /** The thread writes the flag that is due. */
  lemma FlagWritten(s: State, t: Id) returns (n: State)
    requires Reachable(s) && Marked(s, t) && s.threads[t].Due().Setting?
    ensures Leads(s, n) && t in n.threads
    ensures n.threads[t] == s.threads[t].(cancelable := s.threads[t].Due().value, setting := NotSetting,
              at := s.threads[t].AfterFlag())
  {
    hide Reachable, Run, Leads;
    n := LockComesFree(s, t);
    ReachableOn(s, n);
    ReachableWritesDue(n);
    if n.threads[t].setting.NotSetting? {
      assert Enabled(n, LockForFlag(t));
      LeadsOn(s, n, LockForFlag(t));
      n := Next(n, LockForFlag(t));
    }
    LeadsOn(s, n, WriteFlag(t));
    n := Next(n, WriteFlag(t));
  }

  lemma ReachableWritesDue(s: State)
    requires Reachable(s)
    ensures WritesDue(s)
  {
    var steps :| Run(INITIAL, steps, s);
    RunWritesDue(INITIAL, steps, s);
  }

  /** A marked thread can always go on to the next point. */
  lemma MarkedGoesOn(s: State, t: Id) returns (n: State)
    requires Reachable(s) && Marked(s, t) && !s.threads[t].at.Over?
    ensures Leads(s, n) && Marked(n, t) && n.threads[t].event == s.threads[t].event
    ensures n.threads[t].at == MarkedNext(s.threads[t].at, s.threads[t].event.actions)
  {
    hide Reachable, Run, Leads;
    if s.threads[t].Due().Setting? {
      n := FlagWritten(s, t);
    } else {
      ReachableWritesDue(s);
      var step := if s.threads[t].Works() then Work(t) else Look(t);
      LeadsSelf(s);
      LeadsOn(s, s, step);
      n := Next(s, step);
    }
  }

  lemma {:induction false} MarkedReaches(s: State, t: Id, q: Point) returns (end: State)
    requires Reachable(s) && Marked(s, t) && q in Ahead(s.threads[t].at, s.threads[t].event.actions)
    ensures Leads(s, end) && Marked(end, t) && end.threads[t].at == q
    decreases Rank(s.threads[t].at)
  {
    hide Reachable, Run, Leads, Next;
    if s.threads[t].at == q {
      LeadsSelf(s);
      end := s;
    } else {
      var n := MarkedGoesOn(s, t);
      ReachableOn(s, n);
      end := MarkedReaches(n, t, q);
      LeadsTrans(s, n, end);
    }
  }

  ghost predicate CanCome(s: State, t: Id, q: Point) {
    exists end :: Leads(s, end) && Marked(end, t) && end.threads[t].at == q
  }

  /** What a successful cancel stops: the thread can still come to a point exactly if that is ahead of where
      the cancel met it. */
  lemma CancelStopsIff(s: State, t: Id, q: Point)
    requires Reachable(s) && Marked(s, t)
    ensures CanCome(s, t, q) <==> q in Ahead(s.threads[t].at, s.threads[t].event.actions)
  {
    hide Reachable, Ahead;
    if q in Ahead(s.threads[t].at, s.threads[t].event.actions) {
      var end := MarkedReaches(s, t, q);
    }
    if CanCome(s, t, q) {
      var end :| Leads(s, end) && Marked(end, t) && end.threads[t].at == q;
      var steps :| Run(s, steps, end);
      MarkedRun(s, steps, end, t);
    }
  }

  /** In the source's terms: actions are still processed exactly if the cancel came between the look before them
      and their end, and then it takes effect at the look behind them; the syncs still run exactly if it came
      between that look and their end, and then it takes effect at the look before the shutdown requests; those
      are still handled, and the event still comes to its ordinary end, exactly if it came behind all of these. */
  lemma WorkAfterCancelIff(s: State, t: Id)
    requires Reachable(s) && Marked(s, t)
    ensures CanCome(s, t, Acting) <==> s.threads[t].at in {ActionDrop, Acting}
    ensures CanCome(s, t, Syncing) <==> s.threads[t].at in {LateDrop, Syncing}
    ensures CanCome(s, t, Shutdown) <==>
              s.threads[t].at.Shutdown? || (s.threads[t].at.Reset? && s.threads[t].event.actions)
    ensures CanCome(s, t, Closing) <==>
      s.threads[t].at in {Shutdown, LastDrop, Closing} || (s.threads[t].at.Reset? && s.threads[t].event.actions)
  {
    hide Reachable, CanCome;
    CancelStopsIff(s, t, Acting);
    CancelStopsIff(s, t, Syncing);
    CancelStopsIff(s, t, Shutdown);
    CancelStopsIff(s, t, Closing);
    AheadMembers(s.threads[t].at, s.threads[t].event.actions);
  }

  lemma AheadMembers(at: Point, actions: bool)
    ensures Acting in Ahead(at, actions) <==> at in {ActionDrop, Acting}
    ensures Syncing in Ahead(at, actions) <==> at in {LateDrop, Syncing}
    ensures Shutdown in Ahead(at, actions) <==> at.Shutdown? || (at.Reset? && actions)
    ensures Closing in Ahead(at, actions) <==> at in {Shutdown, LastDrop, Closing} || (at.Reset? && actions)
  {
    hide Ahead;
    AheadAtEnd(actions);
    AheadLate(actions);
    AheadLooks(actions);
    AheadBefore(actions);
  }

  lemma AheadOnward(at: Point, actions: bool)
    requires !at.Over?
    ensures Ahead(at, actions) == {at} + Ahead(MarkedNext(at, actions), actions)
  {
  }

  lemma AheadAtEnd(actions: bool)
    ensures Ahead(Over, actions) == {Over} && Ahead(FinalLook, actions) == {FinalLook, Over} &&
              Ahead(Begin, actions) == {Begin, Over}
    ensures Ahead(Closing, actions) == {Closing, Over} && Ahead(LastDrop, actions) == {LastDrop, Closing, Over}
    ensures Ahead(Shutdown, actions) == {Shutdown, LastDrop, Closing, Over}
    ensures Ahead(Reset, actions) == if actions then {Reset, Shutdown, LastDrop, Closing, Over} else {Reset, Over}
  {
    assert Ahead(Over, actions) == {Over};
    assert Ahead(Closing, actions) == {Closing, Over};
    assert Ahead(LastDrop, actions) == {LastDrop, Closing, Over};
    assert Ahead(Shutdown, actions) == {Shutdown, LastDrop, Closing, Over};
  }

  lemma AheadLate(actions: bool)
    ensures Ahead(LateLook, actions) == {LateLook, FinalLook, Over} &&
              Ahead(Syncing, actions) == {Syncing, FinalLook, Over}
    ensures Ahead(LateDrop, actions) == {LateDrop, Syncing, FinalLook, Over}
  {
    hide Ahead;
    AheadAtEnd(actions);
    AheadOnward(LateLook, actions);
    AheadOnward(Syncing, actions);
    AheadOnward(LateDrop, actions);
  }

  lemma AheadLooks(actions: bool)
    ensures Ahead(FirstLook, actions) == {FirstLook, FinalLook, Over} &&
              Ahead(ActionLook, actions) == {ActionLook, FinalLook, Over}
  {
    AheadAtEnd(actions);
  }

  lemma AheadBefore(actions: bool)
    ensures Ahead(Acting, actions) == {Acting, LateLook, FinalLook, Over}
    ensures Ahead(ActionDrop, actions) == {ActionDrop, Acting, LateLook, FinalLook, Over}
  {
    AheadAtEnd(actions);
    AheadLate(actions);
    hide Ahead;
    AheadOnward(Acting, actions);
    AheadOnward(ActionDrop, actions);
  }

  // ----- the flag -----

  ghost predicate FlagCanFall(s: State, t: Id) {
    exists end :: Leads(s, end) && Marked(end, t) && !end.threads[t].cancelable
  }

  /** A successful cancel stops the thread before it becomes uncancelable, unless it came behind the look that
      goes before a write of the flag. */
  predicate BehindLook(r: Thread) {
    r.at in {ActionDrop, LateDrop, Shutdown, LastDrop} || (r.at.Reset? && r.event.actions)
  }

  lemma FlagFallsIff(s: State, t: Id)
    requires Reachable(s) && Marked(s, t) && s.threads[t].cancelable
    ensures FlagCanFall(s, t) <==> BehindLook(s.threads[t])
  {
    hide Reachable, Leads;
    ReachableWritesDue(s);
    if BehindLook(s.threads[t]) {
      var n := FlagFalls(s, t);
    } else if FlagCanFall(s, t) {
      var end :| Leads(s, end) && Marked(end, t) && !end.threads[t].cancelable;
      FlagStays(s, end, t);
    }
  }

  lemma FlagFalls(s: State, t: Id) returns (n: State)
    requires Reachable(s) && Marked(s, t) && BehindLook(s.threads[t])
    ensures Leads(s, n) && Marked(n, t) && !n.threads[t].cancelable
  {
    hide Reachable, Leads;
    var m := s;
    LeadsSelf(s);
    if s.threads[t].at.Shutdown? {
      m := MarkedGoesOn(s, t);
      ReachableOn(s, m);
    }
    n := FlagWritten(m, t);
    LeadsTrans(s, m, n);
  }

  lemma FlagStays(s: State, end: State, t: Id)
    requires WritesDue(s) && Marked(s, t) && s.threads[t].cancelable && !BehindLook(s.threads[t]) && Leads(s, end)
    ensures t in end.threads && end.threads[t].cancelable
  {
    hide Run;
    var steps :| Run(s, steps, end);
    FlagStaysAlong(s, steps, end, t);
  }

  lemma {:induction false} FlagStaysAlong(s: State, steps: seq<Step>, end: State, t: Id)
    requires Run(s, steps, end) && WritesDue(s) && t in s.threads && s.threads[t].shouldCancel
    requires s.threads[t].cancelable && !BehindLook(s.threads[t])
    ensures t in end.threads && end.threads[t].cancelable
    decreases |steps|
  {
    hide Next, Enabled, Actor, WritesDue, BehindLook;
    if steps != [] {
      WritesDueStep(s, steps[0]);
      if Actor(steps[0]) == ByThread(t) {
        FlagStaysOwnStep(s, steps[0], t);
      } else {
        OthersOnlyMark(s, steps[0], t);
        SamePlace(s.threads[t], Next(s, steps[0]).threads[t]);
      }
      FlagStaysAlong(Next(s, steps[0]), steps[1..], end, t);
    }
  }

  lemma SamePlace(r: Thread, n: Thread)
    requires n == r.(shouldCancel := n.shouldCancel)
    ensures BehindLook(n) <==> BehindLook(r)
  {
  }

  lemma FlagStaysOwnStep(s: State, step: Step, t: Id)
    requires Enabled(s, step) && WritesDue(s) && t in s.threads && s.threads[t].shouldCancel &&
               Actor(step) == ByThread(t)
    requires s.threads[t].cancelable && !BehindLook(s.threads[t])
    ensures t in Next(s, step).threads && Next(s, step).threads[t].shouldCancel
    ensures Next(s, step).threads[t].cancelable && !BehindLook(Next(s, step).threads[t])
  {
  }

  // ----- two concrete runs -----

  lemma BeforeFirstLook(e: Event) returns (s: State)
    requires Excludes(e)
    ensures Reachable(s) && s == One(e, Thread(e, Running, FirstLook, true, false, NotSetting))
  {
    hide Reachable, Cancelled, CanProcess;
    s := OneRegistered(e);
    s := Extended(s, Start(0));
    assert s == One(e, Thread(e, Running, Begin, false, false, NotSetting));
    s := Extended(s, LockForFlag(0));
    s := Extended(s, WriteFlag(0));
  }

  lemma OneRegistered(e: Event) returns (s: State)
    requires Excludes(e)
    ensures Reachable(s)
    ensures s == One(e, Thread(e, Registered, Begin, false, false, NotSetting))
  {
    hide Reachable, Cancelled, CanProcess;
    s := NothingToWaitFor(e);
    s := Extended(s, Register(0, 0));
  }

  lemma NothingToWaitFor(e: Event) returns (s: State)
    requires Excludes(e)
    ensures Reachable(s) && s == Alone(true, e, Ready)
  {
    s := Admitted(e);
    hide Reachable;
    s := Extended(s, Process(0));
    assert s == Alone(true, e, Waiting([]));
    s := Extended(s, WaitNext(0));
  }

  function Alone(locked: bool, e: Event, phase: Phase): State {
    State(locked, map[0 := Firing(e, phase)], map[], [], map[])
  }

  lemma Admitted(e: Event) returns (s: State)
    requires Excludes(e)
    ensures Reachable(s) && s == Alone(true, e, HandedOff)
  {
    assert Reachable(INITIAL) by {
      assert Run(INITIAL, [], INITIAL);
    }
    hide Reachable;
    s := Extended(INITIAL, Fire(0, e));
    assert s == Alone(false, e, Idle);
    s := Extended(s, Acquire(0));
    assert s == Alone(true, e, Checking);
    s := Extended(s, Check(0));
  }

  function One(e: Event, r: Thread): State {
    State(false, map[0 := Firing(e, Done)], map[0 := r], [0], map[])
  }

  /** An action event at which every look so far found no mark. */
  lemma BeforeActions(e: Event) returns (s: State)
    requires Excludes(e) && e.actions
    ensures Reachable(s) && s == One(e, Thread(e, Running, ActionDrop, true, false, NotSetting))
  {
    hide Reachable, Cancelled, CanProcess;
    s := BeforeFirstLook(e);
    s := Extended(s, Look(0));
    assert s == One(e, Thread(e, Running, ActionLook, true, false, NotSetting));
    s := Extended(s, Look(0));
  }

  /** A user's cancel succeeds behind the look at the mark, and the event's actions are processed nevertheless. */
  lemma ActionsAfterCancel(e: Event) returns (s: State, u: Step, n: State, end: State)
    requires Excludes(e) && e.actions
    ensures Reachable(s) && Enabled(s, u) && u.UserCancel? && n == Next(s, u)
    ensures 0 in s.threads && !s.threads[0].shouldCancel && 0 in n.threads && n.threads[0].shouldCancel
    ensures Leads(n, end) && Marked(end, 0) && end.threads[0].at.Acting? && !end.threads[0].cancelable
  {
    hide Reachable, Leads;
    s := BeforeActions(e);
    s := Extended(s, UserLock(0, 0));
    u := UserCancel(0);
    n := Extended(s, u);
    assert n.threads[0] == Thread(e, Running, ActionDrop, true, true, NotSetting);
    end := FlagWritten(n, 0);
  }

  lemma Extended(s: State, step: Step) returns (n: State)
    requires Reachable(s) && Enabled(s, step)
    ensures n == Next(s, step) && Reachable(n)
  {
    n := Next(s, step);
    var steps :| Run(INITIAL, steps, s);
    RunExtended(INITIAL, steps, s, step);
    assert Run(INITIAL, steps + [step], n);
  }

  lemma {:induction false} RunExtended(s: State, steps: seq<Step>, m: State, step: Step)
    requires Run(s, steps, m) && Enabled(m, step)
    ensures Run(s, steps + [step], Next(m, step))
    decreases |steps|
  {
    hide Next, Enabled;
    if steps == [] {
      assert Run(Next(m, step), [], Next(m, step));
      assert steps + [step] == [step];
    } else {
      RunExtended(Next(s, steps[0]), steps[1..], m, step);
      assert (steps + [step])[1..] == steps[1..] + [step];
    }
  }
}

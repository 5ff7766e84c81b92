/** Safety of the event protocol over all runs (opsiclientd/Events/Basic.py, opsiclientd/Opsiclientd.py,
    opsiclientd/EventProcessing.py). */
module EventSafety {
  import opened EventProtocols

  // ----- who has the lock -----

  datatype Holder = ByFiring(f: Id) | ByThread(t: Id) | ByUser(u: Id)

  predicate Holds(s: State, h: Holder) {
    match h
    case ByFiring(f) => f in s.firings && !s.firings[f].phase.Idle? && !s.firings[f].phase.Done?
    case ByThread(t) => t in s.threads && s.threads[t].setting.Setting?
    case ByUser(u) => u in s.users
  }

  /** The lock is taken exactly if somebody is responsible for its release, and that is one party at a time. */
  ghost predicate Mutex(s: State) {
    && (s.locked <==> exists h :: Holds(s, h))
    && forall h, k :: Holds(s, h) && Holds(s, k) ==> h == k
  }

  // ----- the list of event processing threads -----

  ghost predicate WellListed(s: State) {
    && ThreadsListed(s)
    && (forall i, j :: 0 <= i < j < |s.list| ==> s.list[i] != s.list[j])
    && (forall t :: t in s.threads && !s.threads[t].life.Ended? ==> t in s.list)
    && (forall u :: u in s.users ==> s.users[u] in s.threads)
  }

  /** A thread is cancelable only once it has set running, and it writes flags only while it runs. */
  ghost predicate WellFlagged(s: State) {
    && (forall t :: t in s.threads && s.threads[t].cancelable ==> !s.threads[t].life.Registered?)
    && (forall t :: t in s.threads && s.threads[t].setting.Setting? ==> s.threads[t].life.Running?)
  }

  predicate Excludes(e: Event) {
    !e.login && !e.gui
  }

  /** From the check to the processing every listed thread stays cancelable. */
  ghost predicate AdmittedStays(s: State) {
    forall f, t :: f in s.firings && s.firings[f].phase.HandedOff? && !s.firings[f].event.panic &&
                   !s.firings[f].event.gui && t in s.list ==>
      t in s.threads && s.threads[t].cancelable
  }

  /** While others are waited for, those not waited for any more have ended. */
  ghost predicate WaitsForOthers(s: State) {
    forall f :: f in s.firings && s.firings[f].phase.Waiting? ==>
      && Excludes(s.firings[f].event)
      && (forall t :: t in s.firings[f].phase.rest ==> t in s.threads)
      && forall t :: t in s.list && t in s.threads && !s.threads[t].event.login ==>
           s.threads[t].cancelable && (t in s.firings[f].phase.rest || s.threads[t].life.Ended?)
  }

  ghost predicate OthersEnded(s: State) {
    forall f :: f in s.firings && s.firings[f].phase.Ready? ==>
      && !s.firings[f].event.gui
      && (!s.firings[f].event.login ==>
            forall t :: t in s.threads && !s.threads[t].event.login ==> s.threads[t].life.Ended?)
  }

  predicate Live(s: State, t: Id) {
    t in s.threads && !s.threads[t].event.login && !s.threads[t].life.Ended?
  }

  /** At most one non-login event is registered and has not ended. */
  ghost predicate AtMostOne(s: State) {
    forall t, r :: Live(s, t) && Live(s, r) ==> t == r
  }

  ghost predicate Inv(s: State) {
    Mutex(s) && WellListed(s) && WellFlagged(s) && AdmittedStays(s) && WaitsForOthers(s) && OthersEnded(s) &&
      AtMostOne(s)
  }

  // ----- facts about the functions of the protocol -----

  lemma {:induction false} WithoutMembers(list: seq<Id>, t: Id)
    requires forall i, j :: 0 <= i < j < |list| ==> list[i] != list[j]
    ensures forall i, j :: 0 <= i < j < |Without(list, t)| ==> Without(list, t)[i] != Without(list, t)[j]
    ensures forall x :: x in Without(list, t) <==> x in list && x != t
  {
    if list != [] {
      WithoutMembers(list[1..], t);
      assert list[0] !in list[1..];
    }
  }

  /** Cancelling changes nothing but should-cancel marks. */
  lemma {:induction false} CancelledOnlyMarks(threads: map<Id, Thread>, list: seq<Id>)
    requires forall i :: 0 <= i < |list| ==> list[i] in threads
    ensures Cancelled(threads, list).Keys == threads.Keys
    ensures forall t :: t in threads ==>
              Cancelled(threads, list)[t] == threads[t].(shouldCancel := Cancelled(threads, list)[t].shouldCancel)
    ensures forall t :: t in threads && threads[t].event.login ==> Cancelled(threads, list)[t] == threads[t]
    decreases |list|
  {
    if list == [] {
    } else if threads[list[0]].event.login {
      CancelledOnlyMarks(threads, list[1..]);
    } else if threads[list[0]].cancelable {
      CancelledOnlyMarks(threads[list[0] := threads[list[0]].(shouldCancel := true)], list[1..]);
    }
  }

  // ----- every step keeps the invariant -----

  function Actor(step: Step): Holder {
    match step
    case Fire(f, _) => ByFiring(f)
    case Acquire(f) => ByFiring(f)
    case AcquireTimeout(f) => ByFiring(f)
    case Check(f) => ByFiring(f)
    case Process(f) => ByFiring(f)
    case WaitNext(f) => ByFiring(f)
    case WaitTimeout(f) => ByFiring(f)
    case Register(f, _) => ByFiring(f)
    case RegisterFailed(f) => ByFiring(f)
    case Start(t) => ByThread(t)
    case OutsideWindow(t) => ByThread(t)
    case LockForFlag(t) => ByThread(t)
    case WriteFlag(t) => ByThread(t)
    case Look(t) => ByThread(t)
    case Work(t) => ByThread(t)
    case Fail(t) => ByThread(t)
    case End(t) => ByThread(t)
    case Remove(t) => ByThread(t)
    case UserLock(u, _) => ByUser(u)
    case UserCancel(u) => ByUser(u)
  }

  /** A step only changes whether its own party has the lock, and only in step with the lock. */
  ghost predicate ActsAlone(s: State, n: State, a: Holder) {
    && (forall h :: h != a ==> (Holds(n, h) <==> Holds(s, h)))
    && (Holds(n, a) && !Holds(s, a) ==> !s.locked && n.locked)
    && (!Holds(n, a) && Holds(s, a) ==> !n.locked)
    && (Holds(n, a) && Holds(s, a) && s.locked ==> n.locked)
    && (!Holds(n, a) && !Holds(s, a) ==> n.locked == s.locked)
  }

  /** What a step does to the threads: at most one changes, and only a registration adds one. */
  ghost predicate ThreadsFrame(s: State, n: State, step: Step) {
    && (forall t :: t in s.threads ==> t in n.threads && n.threads[t].event == s.threads[t].event)
    && (forall t :: t in s.threads && n.threads[t].life != s.threads[t].life ==>
          (step == Start(t) && s.threads[t].life.Registered? && n.threads[t].life.Running?) ||
          (step == OutsideWindow(t) && s.threads[t].life.Registered? && n.threads[t].life.Ended?) ||
          (step == End(t) && s.threads[t].setting.NotSetting? && n.threads[t].life.Ended?))
    && (forall t :: t in s.threads && n.threads[t].cancelable != s.threads[t].cancelable ==>
          step == WriteFlag(t) && s.threads[t].setting.Setting?)
    && (forall t :: t in s.threads && n.threads[t].setting != s.threads[t].setting ==>
          (step == WriteFlag(t) && n.threads[t].setting.NotSetting?) ||
            (step.LockForFlag? && step.t == t && s.threads[t].life.Running?))
    && (forall t :: t in n.threads && t !in s.threads ==>
          step.Register? && t == step.t && step.f in s.firings &&
          n.threads[t] == Thread(s.firings[step.f].event, Registered, Begin, false, false, NotSetting))
  }

  ghost predicate ListFrame(s: State, n: State, step: Step) {
    && (forall t :: t in n.list <==> (t in s.list && step != Remove(t)) || (step.Register? && t == step.t))
    && (step.Register? ==> step.t !in s.threads && step.t in n.threads)
    && (step.Remove? ==> step.t in s.threads && s.threads[step.t].life.Ended?)
    && (forall i, j :: 0 <= i < j < |n.list| ==> n.list[i] != n.list[j])
  }

  ghost predicate FiringsFrame(s: State, n: State, step: Step) {
    forall f :: f in n.firings ==> FiringFrame(s, n, step, f)
  }

  ghost predicate FiringFrame(s: State, n: State, step: Step, f: Id)
    requires f in n.firings
  {
    match n.firings[f].phase
    case Idle => true
    case Done => true
    case Checking => f in s.firings && (Untouched(s, n, step, f) || step == Acquire(f))
    case HandedOff =>
      && f in s.firings && n.firings[f].event == s.firings[f].event
      && (Untouched(s, n, step, f) || (step == Check(f) && ThreadsListed(s) && CanProcess(s, s.firings[f].event)))
    case Waiting(rest) =>
      && f in s.firings && n.firings[f].event == s.firings[f].event
      && (Untouched(s, n, step, f) ||
          (step == Process(f) && rest == s.list && ThreadsListed(s) && AllCancelable(s.threads, s.list) &&
            Excludes(s.firings[f].event)) ||
          (step == WaitNext(f) && s.firings[f].phase.Waiting? && Popped(s, s.firings[f].phase.rest, rest)))
    case Ready =>
      && f in s.firings && n.firings[f].event == s.firings[f].event
      && (Untouched(s, n, step, f) ||
          (step == Process(f) && s.firings[f].event.login && !s.firings[f].event.gui) ||
          (step == WaitNext(f) && s.firings[f].phase == Waiting([])))
  }

  predicate Untouched(s: State, n: State, step: Step, f: Id)
    requires f in s.firings && f in n.firings
  {
    n.firings[f] == s.firings[f] && Actor(step) != ByFiring(f)
  }

  /** The first thread waited for is a login event or does not run. */
  predicate Popped(s: State, rest: seq<Id>, next: seq<Id>) {
    rest != [] && next == rest[1..] && rest[0] in s.threads &&
      (s.threads[rest[0]].event.login || !s.threads[rest[0]].life.Running?)
  }

  lemma StepThreads(s: State, step: Step)
    requires Enabled(s, step)
    ensures ThreadsFrame(s, Next(s, step), step)
  {
    hide ThreadsFrame, Cancelled, AllCancelable, CanProcess, Without, ThreadsListed;
    if Actor(step).ByFiring? {
      FiringThreads(s, step);
    } else {
      OtherThreads(s, step);
    }
  }

  lemma FiringThreads(s: State, step: Step)
    requires Enabled(s, step) && Actor(step).ByFiring?
    ensures ThreadsFrame(s, Next(s, step), step)
  {
    hide Cancelled, AllCancelable, CanProcess, Without, ThreadsFrame;
    var n := Next(s, step);
    if step.Process? {
      CancelledOnlyMarks(s.threads, s.list);
      assert n.threads == s.threads || n.threads == Cancelled(s.threads, s.list);
      MarkedFrame(s, n, step);
    } else if step.Register? {
      assert n.threads ==
        s.threads[step.t := Thread(s.firings[step.f].event, Registered, Begin, false, false, NotSetting)];
      RegisterFrame(s, n, step);
    } else {
      assert n.threads == s.threads;
      MarkedFrame(s, n, step);
    }
  }

  lemma MarkedFrame(s: State, n: State, step: Step)
    requires n.threads.Keys == s.threads.Keys
    requires forall t :: t in s.threads ==> n.threads[t] == s.threads[t].(shouldCancel := n.threads[t].shouldCancel)
    ensures ThreadsFrame(s, n, step)
  {
  }

  lemma RegisterFrame(s: State, n: State, step: Step)
    requires step.Register? && step.f in s.firings && step.t !in s.threads
    requires n.threads ==
               s.threads[step.t := Thread(s.firings[step.f].event, Registered, Begin, false, false, NotSetting)]
    ensures ThreadsFrame(s, n, step)
  {
  }

  lemma OtherThreads(s: State, step: Step)
    requires Enabled(s, step) && !Actor(step).ByFiring?
    ensures ThreadsFrame(s, Next(s, step), step)
  {
    hide Cancelled, AllCancelable, CanProcess, Without, ThreadsListed;
    if Actor(step).ByThread? {
      OwnThread(s, step);
    }
  }

  lemma OwnThread(s: State, step: Step)
    requires Enabled(s, step) && Actor(step).ByThread?
    ensures ThreadsFrame(s, Next(s, step), step)
  {
    hide Next, Enabled;
    OneThread(s, step);
  }

  lemma OneThread(s: State, step: Step)
    requires Enabled(s, step) && Actor(step).ByThread?
    ensures var n, t := Next(s, step), Actor(step).t;
      && t in s.threads && t in n.threads && n.threads == s.threads[t := n.threads[t]]
      && var r, r' := s.threads[t], n.threads[t];
         && r'.event == r.event
         && (r'.life != r.life ==>
               (step == Start(t) && r.life.Registered? && r'.life.Running?) ||
               (step == OutsideWindow(t) && r.life.Registered? && r'.life.Ended?) ||
               (step == End(t) && r.setting.NotSetting? && r'.life.Ended?))
         && (r'.cancelable != r.cancelable ==> step == WriteFlag(t) && r.setting.Setting?)
         && (r'.setting != r.setting ==>
               (step == WriteFlag(t) && r'.setting.NotSetting?) || (step == LockForFlag(t) && r.life.Running?))
  {
    hide Cancelled, AllCancelable, CanProcess, Without, ThreadsListed;
  }

  lemma StepList(s: State, step: Step)
    requires Enabled(s, step) && WellListed(s)
    ensures ListFrame(s, Next(s, step), step)
  {
    hide Cancelled, AllCancelable, CanProcess, Without;
    if step.Remove? {
      WithoutMembers(s.list, step.t);
    }
  }

  lemma StepFirings(s: State, step: Step)
    requires Enabled(s, step)
    ensures FiringsFrame(s, Next(s, step), step)
  {
    hide Cancelled, AllCancelable, CanProcess, Without, ThreadsListed;
  }

  lemma FiringActsAlone(s: State, step: Step)
    requires Enabled(s, step) && Actor(step).ByFiring?
    ensures ActsAlone(s, Next(s, step), Actor(step))
  {
    hide Next, Enabled, Actor;
    StepThreads(s, step);
    OtherFiringsSame(s, step);
    FiringLock(s, step);
  }

  lemma OtherFiringsSame(s: State, step: Step)
    requires Enabled(s, step) && Actor(step).ByFiring?
    ensures forall f :: ByFiring(f) != Actor(step) ==> (f in Next(s, step).firings <==> f in s.firings)
    ensures forall f :: ByFiring(f) != Actor(step) && f in s.firings ==> Next(s, step).firings[f] == s.firings[f]
    ensures Next(s, step).users == s.users
    ensures !step.LockForFlag? && !step.WriteFlag?
  {
    hide Next, Enabled;
    OneFiring(s, step);
  }

  lemma OneFiring(s: State, step: Step)
    requires Enabled(s, step) && Actor(step).ByFiring?
    ensures var n, f := Next(s, step), Actor(step).f;
      f in n.firings && n.firings == s.firings[f := n.firings[f]] && n.users == s.users
  {
    hide Cancelled, AllCancelable, CanProcess, Without, ThreadsListed;
  }

  lemma FiringLock(s: State, step: Step)
    requires Enabled(s, step) && Actor(step).ByFiring?
    ensures var n, a := Next(s, step), Actor(step);
      && (Holds(n, a) && !Holds(s, a) ==> !s.locked && n.locked)
      && (!Holds(n, a) && Holds(s, a) ==> !n.locked)
      && (Holds(n, a) && Holds(s, a) && s.locked ==> n.locked)
      && (!Holds(n, a) && !Holds(s, a) ==> n.locked == s.locked)
  {
    hide Cancelled, AllCancelable, CanProcess, Without, ThreadsListed;
  }

  lemma OtherActsAlone(s: State, step: Step)
    requires Enabled(s, step) && !Actor(step).ByFiring?
    ensures ActsAlone(s, Next(s, step), Actor(step))
  {
    hide Cancelled, AllCancelable, CanProcess, Without;
  }

  lemma MutexStep(s: State, step: Step)
    requires Enabled(s, step) && Mutex(s)
    ensures Mutex(Next(s, step))
  {
    hide Next, Enabled, Holds, Actor;
    if Actor(step).ByFiring? {
      FiringActsAlone(s, step);
    } else {
      OtherActsAlone(s, step);
    }
    var n, a := Next(s, step), Actor(step);
    if n.locked && s.locked {
      var h :| Holds(s, h);
      assert h != a ==> Holds(n, h);
      assert Holds(n, h);
    }
  }

  lemma WellListedStep(s: State, step: Step)
    requires Enabled(s, step) && WellListed(s)
    ensures WellListed(Next(s, step))
  {
    hide Next, Enabled;
    var n := Next(s, step);
    StepThreads(s, step);
    StepList(s, step);
    StepUsers(s, step);
    forall i | 0 <= i < |n.list|
      ensures n.list[i] in n.threads
    {
      assert n.list[i] in n.list;
    }
  }

  lemma StepUsers(s: State, step: Step)
    requires Enabled(s, step)
    ensures forall u :: u in Next(s, step).users ==>
              (u in s.users && Next(s, step).users[u] == s.users[u]) || Next(s, step).users[u] in s.threads
  {
    hide Cancelled, AllCancelable, CanProcess, Without, ThreadsListed;
  }

  lemma WellFlaggedStep(s: State, step: Step)
    requires Enabled(s, step) && WellFlagged(s)
    ensures WellFlagged(Next(s, step))
  {
    hide Next, Enabled;
    StepThreads(s, step);
  }

  lemma AdmittedStep(s: State, step: Step)
    requires Enabled(s, step) && Mutex(s) && WellListed(s) && AdmittedStays(s)
    ensures AdmittedStays(Next(s, step))
  {
    hide Next, Enabled, Cancelled, AllCancelable, CanProcess, WellListed, ThreadsFrame, ListFrame;
    var n := Next(s, step);
    StepThreads(s, step);
    StepList(s, step);
    StepFirings(s, step);
    LockUsers(s, step);
    forall f, t | f in n.firings && n.firings[f].phase.HandedOff? && !n.firings[f].event.panic &&
                   !n.firings[f].event.gui && t in n.list
      ensures t in n.threads && n.threads[t].cancelable
    {
      assert FiringFrame(s, n, step, f);
      assert Holds(s, ByFiring(f)) && (Holds(s, Actor(step)) ==> Actor(step) == ByFiring(f));
      AdmittedStepAt(s, step, n, f, t);
    }
  }

  lemma AdmittedStepAt(s: State, step: Step, n: State, f: Id, t: Id)
    requires WellListed(s) && AdmittedStays(s)
    requires ThreadsFrame(s, n, step) && ListFrame(s, n, step) && !step.Register? && !step.WriteFlag?
    requires f in n.firings && n.firings[f].phase.HandedOff? && FiringFrame(s, n, step, f)
    requires !n.firings[f].event.panic && !n.firings[f].event.gui && t in n.list
    ensures t in n.threads && n.threads[t].cancelable
  {
    hide AllCancelable, Cancelled, ThreadsFrame, ListFrame;
    ListedBefore(s, step, n, t);
    var i :| 0 <= i < |s.list| && s.list[i] == t;
    assert s.threads[t].cancelable;
  }

  /** Writing a flag, registering and processing are done by the holder of the lock. */
  lemma LockUsers(s: State, step: Step)
    requires Enabled(s, step)
    ensures step.WriteFlag? || step.Register? || step.Process? || step.Check? ==> Holds(s, Actor(step))
  {
  }

  lemma WaitsStep(s: State, step: Step)
    requires Enabled(s, step) && Mutex(s) && WellListed(s) && WellFlagged(s) && WaitsForOthers(s)
    ensures WaitsForOthers(Next(s, step))
  {
    hide Next, Enabled, ThreadsFrame, ListFrame, WellListed, WellFlagged, CanProcess, AllCancelable;
    var n := Next(s, step);
    StepThreads(s, step);
    StepList(s, step);
    StepFirings(s, step);
    LockUsers(s, step);
    forall f | f in n.firings && n.firings[f].phase.Waiting?
      ensures Excludes(n.firings[f].event)
      ensures forall t :: t in n.firings[f].phase.rest ==> t in n.threads
      ensures forall t :: t in n.list && t in n.threads && !n.threads[t].event.login ==>
                n.threads[t].cancelable && (t in n.firings[f].phase.rest || n.threads[t].life.Ended?)
    {
      assert FiringFrame(s, n, step, f);
      assert Holds(s, ByFiring(f)) && (Holds(s, Actor(step)) ==> Actor(step) == ByFiring(f));
      WaitsStepAt(s, step, n, f);
    }
  }

  lemma WaitsStepAt(s: State, step: Step, n: State, f: Id)
    requires WellListed(s) && WellFlagged(s) && WaitsForOthers(s)
    requires ThreadsFrame(s, n, step) && ListFrame(s, n, step) && !step.Register? && !step.WriteFlag?
    requires f in n.firings && n.firings[f].phase.Waiting? && FiringFrame(s, n, step, f)
    ensures Excludes(n.firings[f].event)
    ensures forall t :: t in n.firings[f].phase.rest ==> t in n.threads
    ensures forall t :: t in n.list && t in n.threads && !n.threads[t].event.login ==>
              n.threads[t].cancelable && (t in n.firings[f].phase.rest || n.threads[t].life.Ended?)
  {
    forall t | t in n.list && t in n.threads && !n.threads[t].event.login
      ensures n.threads[t].cancelable && (t in n.firings[f].phase.rest || n.threads[t].life.Ended?)
    {
      WaitsForThread(s, step, n, f, t);
    }
  }

  /** A listed thread was listed before the step; unless it wrote its flag, that is as it was. */
  lemma ListedBefore(s: State, step: Step, n: State, t: Id)
    requires ThreadsListed(s)
    requires ThreadsFrame(s, n, step) && ListFrame(s, n, step) && !step.Register? && !step.WriteFlag?
    requires t in n.list
    ensures t in s.list && t in s.threads && t in n.threads && n.threads[t].event == s.threads[t].event
    ensures n.threads[t].cancelable == s.threads[t].cancelable
    ensures s.threads[t].life.Ended? ==> n.threads[t].life.Ended?
  {
    var i :| 0 <= i < |s.list| && s.list[i] == t;
    assert s.list[i] in s.threads;
  }

  lemma WaitsForThread(s: State, step: Step, n: State, f: Id, t: Id)
    requires WellListed(s) && WellFlagged(s) && WaitsForOthers(s)
    requires ThreadsFrame(s, n, step) && ListFrame(s, n, step) && !step.Register? && !step.WriteFlag?
    requires f in n.firings && n.firings[f].phase.Waiting? && FiringFrame(s, n, step, f)
    requires t in n.list && t in n.threads && !n.threads[t].event.login
    ensures n.threads[t].cancelable && (t in n.firings[f].phase.rest || n.threads[t].life.Ended?)
  {
    hide ThreadsFrame, ListFrame, CanProcess, Cancelled;
    ListedBefore(s, step, n, t);
    var i :| 0 <= i < |s.list| && s.list[i] == t;
    if step == WaitNext(f) && s.firings[f].phase.Waiting? && s.firings[f].phase.rest != [] {
      var rest := s.firings[f].phase.rest;
      assert rest == [rest[0]] + rest[1..];
    }
  }

  lemma EndedStep(s: State, step: Step)
    requires Enabled(s, step) && Mutex(s) && WellListed(s) && WaitsForOthers(s) && OthersEnded(s)
    ensures OthersEnded(Next(s, step))
  {
    hide Next, Enabled, ThreadsFrame, WaitsForOthers, WellListed, CanProcess, AllCancelable;
    var n := Next(s, step);
    StepThreads(s, step);
    StepFirings(s, step);
    LockUsers(s, step);
    forall f | f in n.firings && n.firings[f].phase.Ready?
      ensures !n.firings[f].event.gui
      ensures !n.firings[f].event.login ==> forall t :: t in n.threads && !n.threads[t].event.login ==>
                n.threads[t].life.Ended?
    {
      assert FiringFrame(s, n, step, f);
      assert Holds(s, ByFiring(f)) && (Holds(s, Actor(step)) ==> Actor(step) == ByFiring(f));
      EndedStepAt(s, step, n, f);
    }
  }

  lemma EndedStepAt(s: State, step: Step, n: State, f: Id)
    requires WellListed(s) && WaitsForOthers(s) && OthersEnded(s)
    requires ThreadsFrame(s, n, step) && !step.Register?
    requires f in n.firings && n.firings[f].phase.Ready? && FiringFrame(s, n, step, f)
    ensures !n.firings[f].event.gui
    ensures !n.firings[f].event.login ==> forall t :: t in n.threads && !n.threads[t].event.login ==>
              n.threads[t].life.Ended?
  {
    hide CanProcess, AllCancelable, Cancelled;
    if !n.firings[f].event.login {
      forall t | t in n.threads && !n.threads[t].event.login
        ensures n.threads[t].life.Ended?
      {
        assert t in s.threads && s.threads[t].event == n.threads[t].event;
        if step == WaitNext(f) {
          assert t in s.list ==> s.threads[t].life.Ended?;
        }
        assert s.threads[t].life.Ended?;
      }
    }
  }

  /** No step takes an ended thread back to life. */
  lemma RunningStep(s: State, step: Step)
    requires Enabled(s, step)
    ensures step.Start? || step.OutsideWindow? || step.End? ==> step.t in s.threads && !s.threads[step.t].life.Ended?
    ensures step.Register? ==> step.f in s.firings && s.firings[step.f].phase.Ready?
  {
  }

  lemma AtMostOneStep(s: State, step: Step)
    requires Enabled(s, step) && OthersEnded(s) && AtMostOne(s)
    ensures AtMostOne(Next(s, step))
  {
    hide Next, Enabled;
    var n := Next(s, step);
    StepThreads(s, step);
    RunningStep(s, step);
    forall t | Live(n, t)
      ensures Live(s, t) || (step.Register? && t == step.t && forall r :: !Live(s, r))
    {
    }
  }

  lemma InvStep(s: State, step: Step)
    requires Enabled(s, step) && Inv(s)
    ensures Inv(Next(s, step))
  {
    hide Next, Enabled, Mutex, WellListed, WellFlagged, AdmittedStays, WaitsForOthers, OthersEnded, AtMostOne;
    MutexStep(s, step);
    WellListedStep(s, step);
    WellFlaggedStep(s, step);
    AdmittedStep(s, step);
    WaitsStep(s, step);
    EndedStep(s, step);
    AtMostOneStep(s, step);
  }

  // ----- all reachable states -----

  lemma {:induction false} RunKeepsInv(s: State, steps: seq<Step>, end: State)
    requires Inv(s) && Run(s, steps, end)
    ensures Inv(end)
    decreases |steps|
  {
    hide Next, Enabled, Inv;
    if steps != [] {
      InvStep(s, steps[0]);
      RunKeepsInv(Next(s, steps[0]), steps[1..], end);
    }
  }

  lemma ReachableInv(s: State)
    requires Reachable(s)
    ensures Inv(s)
  {
    var steps :| Run(INITIAL, steps, s);
    RunKeepsInv(INITIAL, steps, s);
  }

  /** At most one non-login event runs at any time. */
  lemma AtMostOneRunning(s: State, t: Id, r: Id)
    requires Reachable(s) && t in s.threads && r in s.threads && t != r
    requires s.threads[t].life.Running? && s.threads[r].life.Running?
    ensures s.threads[t].event.login || s.threads[r].event.login
  {
    ReachableInv(s);
    assert !(Live(s, t) && Live(s, r));
  }

  /** An admitted event that is not a panic event finds every other event cancelable: processing it marks all
      non-login threads and goes on to wait for them. */
  lemma AdmittedNeverRefused(s: State, f: Id)
    requires Reachable(s) && f in s.firings && s.firings[f].phase.HandedOff?
    requires Excludes(s.firings[f].event) && !s.firings[f].event.panic
    ensures Enabled(s, Process(f)) && s.locked
    ensures var n := Next(s, Process(f));
      && n.firings[f].phase == Waiting(s.list)
      && forall t :: t in s.list && !s.threads[t].event.login ==> t in n.threads && n.threads[t].shouldCancel
  {
    ReachableInv(s);
    assert Holds(s, ByFiring(f));
    forall t | t in s.list && !s.threads[t].event.login
      ensures t in Next(s, Process(f)).threads && Next(s, Process(f)).threads[t].shouldCancel
    {
      var i :| 0 <= i < |s.list| && s.list[i] == t;
      CancelledMarks(s.threads, s.list, i);
    }
  }

  /** A panic event skips the check; it is given up exactly if some non-login event is not cancelable. */
  lemma PanicRefusedIff(s: State, f: Id)
    requires Reachable(s) && f in s.firings && s.firings[f].phase.HandedOff?
    requires Excludes(s.firings[f].event) && s.firings[f].event.panic
    ensures Enabled(s, Process(f))
    ensures Next(s, Process(f)).firings[f].phase.Done? <==>
      exists t :: t in s.list && !s.threads[t].event.login && !s.threads[t].cancelable
  {
    ReachableInv(s);
    if exists t :: t in s.list && !s.threads[t].event.login && !s.threads[t].cancelable {
      var t :| t in s.list && !s.threads[t].event.login && !s.threads[t].cancelable;
      var i :| 0 <= i < |s.list| && s.list[i] == t;
      assert !AllCancelable(s.threads, s.list);
    }
  }

  /** The marks that `cancel` leaves along the list: a thread is marked exactly if it was before, or it is not
      a login event and nothing up to it refused. */
  lemma {:induction false} CancelledMarks(threads: map<Id, Thread>, list: seq<Id>, i: nat)
    requires forall k :: 0 <= k < |list| ==> list[k] in threads
    requires forall j, k :: 0 <= j < k < |list| ==> list[j] != list[k]
    requires i < |list|
    ensures list[i] in Cancelled(threads, list)
    ensures Cancelled(threads, list)[list[i]].shouldCancel <==>
      threads[list[i]].shouldCancel || (!threads[list[i]].event.login && AllCancelable(threads, list[..i + 1]))
    decreases |list|
  {
    CancelledOnlyMarks(threads, list);
    var rest := list[1..];
    assert list[..i + 1] == [list[0]] + rest[..i];
    var first := threads[list[0]];
    if first.event.login {
      if i > 0 {
        CancelledMarks(threads, rest, i - 1);
      }
    } else if first.cancelable {
      var next := threads[list[0] := first.(shouldCancel := true)];
      if i > 0 {
        CancelledMarks(next, rest, i - 1);
      } else {
        CancelledElsewhere(next, rest, list[0]);
      }
    }
  }

  lemma {:induction false} CancelledElsewhere(threads: map<Id, Thread>, list: seq<Id>, t: Id)
    requires forall k :: 0 <= k < |list| ==> list[k] in threads
    requires t in threads && t !in list
    ensures t in Cancelled(threads, list) && Cancelled(threads, list)[t] == threads[t]
    decreases |list|
  {
    if list == [] {
    } else if threads[list[0]].event.login {
      CancelledElsewhere(threads, list[1..], t);
    } else if threads[list[0]].cancelable {
      CancelledElsewhere(threads[list[0] := threads[list[0]].(shouldCancel := true)], list[1..], t);
    }
  }

  // ----- the lock -----

  /** Whoever has the lock keeps it through all steps of others: a firing from its check until it registers. */
  lemma OnlyHolderReleases(s: State, h: Holder, step: Step)
    requires Reachable(s) && Holds(s, h) && Enabled(s, step) && Actor(step) != h
    ensures s.locked && Next(s, step).locked && Holds(Next(s, step), h)
  {
    hide Next, Enabled, Actor, Holds;
    ReachableInv(s);
    if Actor(step).ByFiring? {
      FiringActsAlone(s, step);
    } else {
      OtherActsAlone(s, step);
    }
  }

  /** The lock never leaks: whenever it is taken, its holder can go on by itself until it releases it. */
  lemma LockCanBeReleased(s: State) returns (h: Holder, steps: seq<Step>, end: State)
    requires Reachable(s) && s.locked
    ensures Holds(s, h) && Run(s, steps, end) && !end.locked
    ensures forall k :: 0 <= k < |steps| ==> Actor(steps[k]) == h
  {
    ReachableInv(s);
    h :| Holds(s, h);
    steps, end := Release(s, h);
  }

  lemma {:induction false} Release(s: State, h: Holder) returns (steps: seq<Step>, end: State)
    requires Inv(s) && Holds(s, h)
    ensures Run(s, steps, end) && !end.locked
    ensures forall k :: 0 <= k < |steps| ==> Actor(steps[k]) == h
    decreases Distance(s, h)
  {
    var step := NextOf(s, h);
    NextOfEnabled(s, h);
    InvStep(s, step);
    var n := Next(s, step);
    if n.locked {
      var rest;
      rest, end := Release(n, h);
      steps := [step] + rest;
    } else {
      steps, end := [step], n;
      assert Run(n, [], n);
    }
  }

  /** What the holder does next on its way to the release. */
  function NextOf(s: State, h: Holder): Step {
    match h
    case ByThread(t) => WriteFlag(t)
    case ByUser(u) => UserCancel(u)
    case ByFiring(f) =>
      if f !in s.firings then AcquireTimeout(f)
      else match s.firings[f].phase
        case Checking => Check(f)
        case HandedOff => Process(f)
        case Waiting(rest) =>
          if rest != [] && rest[0] in s.threads && !s.threads[rest[0]].event.login &&
             s.threads[rest[0]].life.Running? then WaitTimeout(f)
          else WaitNext(f)
        case _ => RegisterFailed(f)
  }

  function Distance(s: State, h: Holder): nat {
    match h
    case ByFiring(f) =>
      if f !in s.firings then 0
      else (match s.firings[f].phase
        case Checking => |s.list| + 4
        case HandedOff => |s.list| + 3
        case Waiting(rest) => |rest| + 2
        case _ => 1)
    case _ => 0
  }

  lemma NextOfEnabled(s: State, h: Holder)
    requires Inv(s) && Holds(s, h)
    ensures Enabled(s, NextOf(s, h)) && Actor(NextOf(s, h)) == h
    ensures var n := Next(s, NextOf(s, h)); n.locked ==> Holds(n, h) && Distance(n, h) < Distance(s, h)
  {
    hide Cancelled, AllCancelable, CanProcess, Without;
    assert NextOf(s, h).Process? ==> ThreadsListed(s);
  }
}

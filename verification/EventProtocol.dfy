/** Firing, checking, cancelling and registering events as interleaved steps over one event lock
    (opsiclientd/Events/Basic.py, opsiclientd/Opsiclientd.py, opsiclientd/EventProcessing.py). */
module EventProtocols {
  /** A number for a firing of an event, an event processing thread or a user's request. */
  type Id = nat

  /** What the protocol asks about an event: a panic event, a user login event, an event that only the
      component waiting for the GUI listens to, whether it was fired by a manual action, and whether it
      processes actions. */
  datatype Event = Event(panic: bool, login: bool, gui: bool, canCancel: bool, actions: bool)

  /** Where a firing stands. The lock passes from Checking, in the firing thread, to HandedOff, in the thread
      that calls `processEvent`. */
  datatype Phase = Idle | Checking | HandedOff | Waiting(rest: seq<Id>) | Ready | Done

  datatype Firing = Firing(event: Event, phase: Phase)

  datatype Life = Registered | Running | Ended

  /** Where the `run` method of an event processing thread stands: before it looks at the cancel mark (FirstLook,
      ActionLook, LateLook, FinalLook), before it writes the cancelable flag (Begin, ActionDrop, LateDrop, Reset,
      LastDrop), or at the work between (Acting, Syncing, Shutdown, Closing). Over is the way out. */
  datatype Point =
    | Begin | FirstLook | ActionLook | ActionDrop | Acting | LateLook | LateDrop | Syncing
    | FinalLook | Reset | Shutdown | LastDrop | Closing | Over

  /** An event processing thread; setting is the flag it is about to write while it has the lock. */
  datatype Thread = Thread(event: Event, life: Life, at: Point, cancelable: bool, shouldCancel: bool, setting: Setting)
  {
    /** The flag that is due. */
    function Due(): Setting {
      match at
      case Begin => Setting(true)
      case ActionDrop => Setting(false)
      case LateDrop => Setting(false)
      case Reset => Setting(!event.actions)
      case LastDrop => Setting(false)
      case _ => NotSetting
    }

    /** Where the thread goes once the flag is written. `_set_cancelable(True)` raises if the mark is set. */
    function AfterFlag(): Point {
      match at
      case Begin => if shouldCancel then Over else FirstLook
      case ActionDrop => Acting
      case LateDrop => Syncing
      case Reset => if !event.actions && shouldCancel then Over else Shutdown
      case LastDrop => Closing
      case _ => at
    }

    predicate Looks() {
      at in {FirstLook, ActionLook, LateLook, FinalLook, Shutdown}
    }

    /** Where a look at the mark leads: to the final part or out of it if the mark is set. */
    function AfterLook(): Point {
      match at
      case FirstLook => if shouldCancel then FinalLook else if event.actions then ActionLook else LateLook
      case ActionLook => if shouldCancel then FinalLook else ActionDrop
      case LateLook => if shouldCancel then FinalLook else LateDrop
      case FinalLook => if shouldCancel then Over else Reset
      case Shutdown => if shouldCancel then Over else Shutdown
      case _ => at
    }

    predicate Works() {
      at in {Acting, Syncing, Shutdown, Closing}
    }

    /** Where the work leads. A shutdown request need not look at the mark. */
    function AfterWork(): Point {
      match at
      case Acting => LateLook
      case Syncing => FinalLook
      case Shutdown => LastDrop
      case _ => Over
    }

    /** Where an error leads: to the final part, and from there out. */
    function AfterError(): Point {
      if at in {FirstLook, ActionLook, ActionDrop, Acting, LateLook, LateDrop, Syncing} then FinalLook else Over
    }
  }

  datatype Setting = NotSetting | Setting(value: bool)

  /** The lock does not know its owner: any thread may release it. */
  datatype State = State(locked: bool, firings: map<Id, Firing>, threads: map<Id, Thread>, list: seq<Id>,
                         users: map<Id, Id>)

  datatype Step =
    | Fire(f: Id, event: Event)
    | Acquire(f: Id)
    | AcquireTimeout(f: Id)
    | Check(f: Id)
    | Process(f: Id)
    | WaitNext(f: Id)
    | WaitTimeout(f: Id)
    | Register(f: Id, t: Id)
    | RegisterFailed(f: Id)
    | Start(t: Id)
    | OutsideWindow(t: Id)
    | LockForFlag(t: Id)
    | WriteFlag(t: Id)
    | Look(t: Id)
    | Work(t: Id)
    | Fail(t: Id)
    | End(t: Id)
    | Remove(t: Id)
    | UserLock(u: Id, t: Id)
    | UserCancel(u: Id)

  // ----- the steps -----

  predicate ThreadsListed(s: State) {
    forall i :: 0 <= i < |s.list| ==> s.list[i] in s.threads
  }

  /** `canProcessEvent`: no error is raised. */
  predicate CanProcess(s: State, e: Event)
    requires ThreadsListed(s)
  {
    e.panic || e.gui || forall i :: 0 <= i < |s.list| ==> s.threads[s.list[i]].cancelable && e.canCancel
  }

  /** The threads after `cancel(no_lock=True)` was called along the list, up to the first failure. */
  function Cancelled(threads: map<Id, Thread>, list: seq<Id>): map<Id, Thread>
    requires forall i :: 0 <= i < |list| ==> list[i] in threads
  {
    if list == [] then threads
    else if threads[list[0]].event.login then Cancelled(threads, list[1..])
    else if !threads[list[0]].cancelable then threads
    else Cancelled(threads[list[0] := threads[list[0]].(shouldCancel := true)], list[1..])
  }

  /** No call of `cancel` along the list raised an error. */
  predicate AllCancelable(threads: map<Id, Thread>, list: seq<Id>)
    requires forall i :: 0 <= i < |list| ==> list[i] in threads
  {
    forall i :: 0 <= i < |list| ==> threads[list[i]].event.login || threads[list[i]].cancelable
  }

  function Without(list: seq<Id>, t: Id): seq<Id> {
    if list == [] then [] else if list[0] == t then list[1..] else [list[0]] + Without(list[1..], t)
  }

  function To(s: State, f: Id, phase: Phase): State
    requires f in s.firings
  {
    s.(firings := s.firings[f := s.firings[f].(phase := phase)])
  }

  /** The thread runs and is not writing its flag. */
  predicate Idles(s: State, t: Id) {
    t in s.threads && s.threads[t].life.Running? && s.threads[t].setting.NotSetting?
  }

  function GoTo(s: State, t: Id, at: Point): State
    requires t in s.threads
  {
    s.(threads := s.threads[t := s.threads[t].(at := at)])
  }

  predicate Enabled(s: State, step: Step) {
    match step
    case Fire(f, e) => f !in s.firings
    case Acquire(f) => f in s.firings && s.firings[f].phase.Idle? && !s.locked
    case AcquireTimeout(f) => f in s.firings && s.firings[f].phase.Idle?
    case Check(f) => f in s.firings && s.firings[f].phase.Checking? && ThreadsListed(s)
    case Process(f) => f in s.firings && s.firings[f].phase.HandedOff? && ThreadsListed(s)
    case WaitNext(f) =>
      && f in s.firings && s.firings[f].phase.Waiting?
      && var rest := s.firings[f].phase.rest;
         rest == [] || (rest[0] in s.threads && (s.threads[rest[0]].event.login || !s.threads[rest[0]].life.Running?))
    case WaitTimeout(f) =>
      && f in s.firings && s.firings[f].phase.Waiting?
      && var rest := s.firings[f].phase.rest;
         rest != [] && rest[0] in s.threads && !s.threads[rest[0]].event.login && s.threads[rest[0]].life.Running?
    case Register(f, t) => f in s.firings && s.firings[f].phase.Ready? && t !in s.threads
    case RegisterFailed(f) => f in s.firings && s.firings[f].phase.Ready?
    case Start(t) => t in s.threads && s.threads[t].life.Registered?
    case OutsideWindow(t) => t in s.threads && s.threads[t].life.Registered?
    case LockForFlag(t) => Idles(s, t) && s.threads[t].Due().Setting? && !s.locked
    case WriteFlag(t) => t in s.threads && s.threads[t].setting.Setting?
    case Look(t) => Idles(s, t) && s.threads[t].Looks()
    case Work(t) => Idles(s, t) && s.threads[t].Works()
    case Fail(t) => Idles(s, t)
    case End(t) => Idles(s, t) && s.threads[t].at.Over?
    case Remove(t) => t in s.threads && s.threads[t].life.Ended? && t in s.list
    case UserLock(u, t) => u !in s.users && t in s.threads && !s.locked
    case UserCancel(u) => u in s.users && s.users[u] in s.threads
  }

  function Next(s: State, step: Step): State
    requires Enabled(s, step)
  {
    match step
    case Fire(f, e) => s.(firings := s.firings[f := Firing(e, Idle)])
    case Acquire(f) => To(s, f, Checking).(locked := true)
    case AcquireTimeout(f) => To(s, f, Done)
    case Check(f) =>
      if CanProcess(s, s.firings[f].event) then To(s, f, HandedOff)
      else To(s, f, Done).(locked := false)
    case Process(f) =>
      // The lock is taken only if it is free; after a hand-off it is not
      var e := s.firings[f].event;
      if e.gui then To(s, f, Done).(locked := false)
      else if e.login then To(s, f, Ready).(locked := true)
      else if AllCancelable(s.threads, s.list) then
        To(s, f, Waiting(s.list)).(locked := true, threads := Cancelled(s.threads, s.list))
      else To(s, f, Done).(locked := false, threads := Cancelled(s.threads, s.list))
    case WaitNext(f) =>
      var rest := s.firings[f].phase.rest;
      To(s, f, if rest == [] then Ready else Waiting(rest[1..]))
    case WaitTimeout(f) => To(s, f, Done).(locked := false)
    case Register(f, t) =>
      To(s, f, Done).(locked := false, list := s.list + [t],
                      threads := s.threads[t :=
                        Thread(s.firings[f].event, Registered, Begin, false, false, NotSetting)])
    case RegisterFailed(f) => To(s, f, Done).(locked := false)
    case Start(t) => s.(threads := s.threads[t := s.threads[t].(life := Running)])
    case OutsideWindow(t) => s.(threads := s.threads[t := s.threads[t].(life := Ended)])
    case LockForFlag(t) => s.(locked := true, threads := s.threads[t := s.threads[t].(setting := s.threads[t].Due())])
    case WriteFlag(t) =>
      var r := s.threads[t];
      s.(locked := false,
         threads := s.threads[t := r.(cancelable := r.setting.value, setting := NotSetting, at := r.AfterFlag())])
    case Look(t) => GoTo(s, t, s.threads[t].AfterLook())
    case Work(t) => GoTo(s, t, s.threads[t].AfterWork())
    case Fail(t) => GoTo(s, t, s.threads[t].AfterError())
    case End(t) => s.(threads := s.threads[t := s.threads[t].(life := Ended)])
    case Remove(t) => s.(list := Without(s.list, t))
    case UserLock(u, t) => s.(locked := true, users := s.users[u := t])
    case UserCancel(u) =>
      var t := s.users[u];
      s.(locked := false, users := s.users - {u},
         threads := if s.threads[t].cancelable then s.threads[t := s.threads[t].(shouldCancel := true)] else s.threads)
  }

  const INITIAL := State(false, map[], map[], [], map[])

  ghost predicate Run(s: State, steps: seq<Step>, end: State)
    decreases |steps|
  {
    if steps == [] then s == end
    else Enabled(s, steps[0]) && Run(Next(s, steps[0]), steps[1..], end)
  }

  ghost predicate Reachable(s: State) {
    exists steps :: Run(INITIAL, steps, s)
  }
}

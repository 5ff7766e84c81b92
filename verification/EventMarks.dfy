/** Who can mark an event processing thread and when, the check that admits an event, and the course of an event
    that nobody cancels (opsiclientd/EventProcessing.py, opsiclientd/Opsiclientd.py). */
module EventMarks {
  import opened EventProtocols
  import opened EventSafety
  import opened EventCancels

  // ----- a user's cancel -----

  /** A user's cancel marks the thread exactly if it is cancelable; else the call fails and nothing is marked. In
      both cases the lock is free again, and nothing else changes. */
  lemma UserCancelIff(s: State, u: Id)
    requires Enabled(s, UserCancel(u))
    ensures var n, t := Next(s, UserCancel(u)), s.users[u];
      && t in n.threads
      && (n.threads[t].shouldCancel <==> s.threads[t].shouldCancel || s.threads[t].cancelable)
      && n.threads == s.threads[t := s.threads[t].(shouldCancel := n.threads[t].shouldCancel)]
      && !n.locked && u !in n.users && (forall v :: v != u ==> (v in n.users <==> v in s.users))
      && (forall v :: v in n.users ==> n.users[v] == s.users[v])
      && n.firings == s.firings && n.list == s.list
  {
  }

  // ----- only cancelable threads are marked -----

  predicate HasMark(s: State, t: Id) {
    t in s.threads && s.threads[t].shouldCancel
  }

  lemma {:induction false} CancelledOnlyCancelable(threads: map<Id, Thread>, list: seq<Id>, t: Id)
    requires forall i :: 0 <= i < |list| ==> list[i] in threads
    requires t in threads && !threads[t].shouldCancel
    ensures t in Cancelled(threads, list)
    ensures Cancelled(threads, list)[t].shouldCancel ==> t in list && threads[t].cancelable && !threads[t].event.login
    decreases |list|
  {
    if list == [] {
    } else if threads[list[0]].event.login {
      CancelledOnlyCancelable(threads, list[1..], t);
    } else if threads[list[0]].cancelable && list[0] == t {
      CancelledOnlyMarks(threads, list);
    } else if threads[list[0]].cancelable {
      CancelledOnlyCancelable(threads[list[0] := threads[list[0]].(shouldCancel := true)], list[1..], t);
    }
  }

  /** A step that marks a thread finds it cancelable; it is a user's cancel of it, or an event is processed that
      cancels others and lists it. */
  lemma MarkingStep(s: State, step: Step, t: Id)
    requires Enabled(s, step) && !HasMark(s, t) && HasMark(Next(s, step), t)
    ensures t in s.threads && s.threads[t].cancelable
    ensures (step.UserCancel? && s.users[step.u] == t) ||
            (step.Process? && t in s.list && !s.threads[t].event.login && Excludes(s.firings[step.f].event))
  {
    hide Cancelled, CanProcess, Without;
    if step.Process? {
      CancelledOnlyMarks(s.threads, s.list);
      if t in s.threads {
        CancelledOnlyCancelable(s.threads, s.list, t);
      }
    }
  }

  /** Along a run from the start a mark turns true only where the thread is cancelable. */
  lemma {:induction false} MarkTurns(s: State, steps: seq<Step>, end: State, t: Id) returns (k: nat, m: State)
    requires Run(s, steps, end) && !HasMark(s, t) && HasMark(end, t)
    ensures k < |steps| && Run(s, steps[..k], m) && Enabled(m, steps[k])
    ensures !HasMark(m, t) && HasMark(Next(m, steps[k]), t) && t in m.threads && m.threads[t].cancelable
    decreases |steps|
  {
    hide Next, Enabled, HasMark;
    var n := Next(s, steps[0]);
    if HasMark(n, t) {
      MarkingStep(s, steps[0], t);
      k, m := 0, s;
    } else {
      k, m := MarkTurns(n, steps[1..], end, t);
      assert steps[..k + 1][1..] == steps[1..][..k];
      k := k + 1;
    }
  }

  // ----- a dropped flag -----

  /** The thread is not cancelable and not marked. */
  predicate Unmarkable(s: State, t: Id) {
    t in s.threads && !s.threads[t].cancelable && !s.threads[t].shouldCancel
  }

  /** No step of the run raises the flag of the thread. */
  ghost predicate NeverRaised(s: State, steps: seq<Step>, t: Id)
    decreases |steps|
  {
    steps == [] ||
    (Enabled(s, steps[0]) && !(steps[0] == WriteFlag(t) && s.threads[t].setting == Setting(true)) &&
     NeverRaised(Next(s, steps[0]), steps[1..], t))
  }

  lemma UnmarkableStep(s: State, step: Step, t: Id)
    requires Enabled(s, step) && Unmarkable(s, t) && !(step == WriteFlag(t) && s.threads[t].setting == Setting(true))
    ensures Unmarkable(Next(s, step), t)
  {
    hide Next;
    if Actor(step) == ByThread(t) {
      UnmarkableOwnStep(s, step, t);
    } else {
      OthersOnlyMark(s, step, t);
      if HasMark(Next(s, step), t) {
        MarkingStep(s, step, t);
      }
    }
  }

  lemma UnmarkableOwnStep(s: State, step: Step, t: Id)
    requires Enabled(s, step) && Unmarkable(s, t) && !(step == WriteFlag(t) && s.threads[t].setting == Setting(true))
    requires Actor(step) == ByThread(t)
    ensures Unmarkable(Next(s, step), t)
  {
  }

  /** A thread without a mark that dropped its flag stays without a mark until it raises the flag again. */
  lemma {:induction false} UnmarkedUntilRaised(s: State, steps: seq<Step>, end: State, t: Id)
    requires Run(s, steps, end) && Unmarkable(s, t) && NeverRaised(s, steps, t)
    ensures Unmarkable(end, t)
    decreases |steps|
  {
    hide Next, Enabled, Unmarkable;
    if steps != [] {
      UnmarkableStep(s, steps[0], t);
      UnmarkedUntilRaised(Next(s, steps[0]), steps[1..], end, t);
    }
  }

  /** The thread of an event with actions is past its begin and has dropped its flag without a mark. */
  predicate PastCancel(s: State, t: Id) {
    && Unmarkable(s, t) && s.threads[t].event.actions && !s.threads[t].at.Begin?
    && s.threads[t].setting != Setting(true)
  }

  lemma PastCancelStep(s: State, step: Step, t: Id)
    requires Enabled(s, step) && PastCancel(s, t)
    ensures PastCancel(Next(s, step), t)
  {
    hide Next;
    UnmarkableStep(s, step, t);
    if Actor(step) == ByThread(t) {
      PastCancelOwnStep(s, step, t);
    } else {
      OthersOnlyMark(s, step, t);
    }
  }

  lemma PastCancelOwnStep(s: State, step: Step, t: Id)
    requires Enabled(s, step) && PastCancel(s, t) && Actor(step) == ByThread(t)
    ensures t in Next(s, step).threads && Next(s, step).threads[t].event == s.threads[t].event
    ensures !Next(s, step).threads[t].at.Begin? && Next(s, step).threads[t].setting != Setting(true)
  {
  }

  lemma {:induction false} PastCancelRun(s: State, steps: seq<Step>, end: State, t: Id)
    requires Run(s, steps, end) && PastCancel(s, t)
    ensures PastCancel(end, t)
    decreases |steps|
  {
    hide Next, Enabled, PastCancel;
    if steps != [] {
      PastCancelStep(s, steps[0], t);
      PastCancelRun(Next(s, steps[0]), steps[1..], end, t);
    }
  }

  /** So once an event with actions has dropped its flag without a mark, nobody can cancel it any more. */
  lemma ActionsAreNotCancelled(s: State, end: State, t: Id)
    requires Reachable(s) && Unmarkable(s, t) && s.threads[t].event.actions && !s.threads[t].at.Begin?
    requires Leads(s, end)
    ensures t in end.threads && !end.threads[t].shouldCancel && !end.threads[t].cancelable
  {
    hide Reachable, Run;
    ReachableWritesDue(s);
    var steps :| Run(s, steps, end);
    PastCancelRun(s, steps, end, t);
  }

  // ----- the check before an event is processed -----

  /** The check admits a panic event, an event for the component that waits for the GUI, and any other event
      exactly if every event in the list is cancelable and there is none unless the event was fired manually.
      An event that is not admitted gives the lock back. */
  lemma AdmittedIff(s: State, f: Id)
    requires Enabled(s, Check(f))
    ensures var n, e := Next(s, Check(f)), s.firings[f].event;
      && f in n.firings && n.firings[f].event == e
      && (n.firings[f].phase.HandedOff? <==>
            e.panic || e.gui || s.list == [] || (e.canCancel && forall t :: t in s.list ==> s.threads[t].cancelable))
      && (!n.firings[f].phase.HandedOff? ==> n.firings[f].phase.Done? && !n.locked)
      && n.threads == s.threads && n.list == s.list && n.users == s.users
  {
    var e := s.firings[f].event;
    if s.list != [] {
      assert s.list[0] in s.threads;
      if forall t :: t in s.list ==> s.threads[t].cancelable {
        assert forall i :: 0 <= i < |s.list| ==> s.threads[s.list[i]].cancelable;
      }
      if CanProcess(s, e) && !e.panic && !e.gui {
        forall t | t in s.list
          ensures s.threads[t].cancelable
        {
          var i :| 0 <= i < |s.list| && s.list[i] == t;
        }
      }
    }
  }

  /** A user login event cancels nobody and waits for nobody. */
  lemma LoginCancelsNobody(s: State, f: Id)
    requires Enabled(s, Process(f)) && s.firings[f].event.login && !s.firings[f].event.gui
    ensures var n := Next(s, Process(f));
      n.threads == s.threads && n.list == s.list && f in n.firings && n.firings[f].phase.Ready? && n.locked
  {
  }

  // ----- an event that nobody cancels -----

  /** The points of a run without a cancel and without an error: from the begin through the looks, the actions
      where there are any, the syncs, the last look and the shutdown requests to the end. */
  function Onward(at: Point, actions: bool): Point {
    match at
    case Begin => FirstLook
    case FirstLook => if actions then ActionLook else LateLook
    case ActionLook => ActionDrop
    case ActionDrop => Acting
    case Acting => LateLook
    case LateLook => LateDrop
    case LateDrop => Syncing
    case Syncing => FinalLook
    case FinalLook => Reset
    case Reset => Shutdown
    case Shutdown => LastDrop
    case LastDrop => Closing
    case Closing => Over
    case Over => Over
  }

  /** The flag that is raised or dropped on the way. */
  predicate Raises(at: Point, actions: bool) {
    at.Begin? || (at.Reset? && !actions)
  }

  predicate DropsFlag(at: Point, actions: bool) {
    at in {ActionDrop, LateDrop, LastDrop} || (at.Reset? && actions)
  }

  /** Without a mark and without an error a thread goes through exactly these points, and its flag changes just
      where it says. A look in the shutdown dialogs leads nowhere. */
  lemma UnmarkedStep(s: State, step: Step, t: Id)
    requires Enabled(s, step) && WritesDue(s) && t in s.threads && s.threads[t].life.Running?
    requires step in {WriteFlag(t), Look(t), Work(t)} && !s.threads[t].shouldCancel
    ensures t in Next(s, step).threads
    ensures var at, r, actions := s.threads[t].at, Next(s, step).threads[t], s.threads[t].event.actions;
      && r.at == (if at.Shutdown? && step.Look? then at else Onward(at, actions))
      && (r.cancelable <==>
            (step.WriteFlag? && Raises(at, actions)) ||
            (s.threads[t].cancelable && !(step.WriteFlag? && DropsFlag(at, actions))))
      && !r.shouldCancel
  {
  }
}

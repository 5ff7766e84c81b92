/** The loops over the event processing threads and the choice of an event's configuration
    (opsiclientd/Opsiclientd.py, opsiclientd/EventProcessing.py, opsiclientd/Events/Basic.py). */
module EventThreads {
  import EventProtocols

  class EventProcessingThread {
    const event: EventProtocols.Event
    var running: bool
    var isCancelable: bool
    var shouldCancel: bool

    constructor (event: EventProtocols.Event)
      ensures this.event == event && !running && !isCancelable && !shouldCancel
    {
      this.event := event;
      running, isCancelable, shouldCancel := false, false, false;
    }

    /** `cancel`, once the lock is held, by the caller or by the method itself. */
    method Cancel() returns (ok: bool)
      modifies this`shouldCancel
      ensures ok <==> isCancelable
      ensures shouldCancel == (old(shouldCancel) || ok)
    {
      if !isCancelable {
        return false;
      }
      shouldCancel := true;
      ok := true;
    }
  }

  class Opsiclientd {
    var eventProcessingThreads: seq<EventProcessingThread>

    constructor ()
      ensures eventProcessingThreads == []
    {
      eventProcessingThreads := [];
    }

    predicate Distinct()
      reads this
    {
      forall i, j :: 0 <= i < j < |eventProcessingThreads| ==> eventProcessingThreads[i] != eventProcessingThreads[j]
    }

    /** Whether `canProcessEvent` raises no error. */
    method CanProcessEvent(event: EventProtocols.Event) returns (ok: bool)
      ensures ok <==> event.panic || forall t :: t in eventProcessingThreads ==> t.isCancelable && event.canCancel
    {
      // Always process panic events
      if event.panic {
        return true;
      }
      for i := 0 to |eventProcessingThreads|
        invariant forall k :: 0 <= k < i ==> eventProcessingThreads[k].isCancelable && event.canCancel
      {
        if !eventProcessingThreads[i].isCancelable {
          return false;
        }
        if !event.canCancel {
          return false;
        }
      }
      return true;
    }

    /** No thread up to the n-th refuses to be cancelled. */
    predicate NoRefusal(n: nat)
      requires n <= |eventProcessingThreads|
      reads this, eventProcessingThreads
    {
      forall k :: 0 <= k < n ==> eventProcessingThreads[k].event.login || eventProcessingThreads[k].isCancelable
    }

    /** Marks the non-login threads along the list and gives up at the first that refuses. */
    method CancelOthers() returns (ok: bool)
      requires Distinct()
      modifies eventProcessingThreads
      ensures forall t :: t in eventProcessingThreads ==>
                t.running == old(t.running) && t.isCancelable == old(t.isCancelable)
      ensures ok <==> forall t :: t in eventProcessingThreads ==> t.event.login || t.isCancelable
      ensures forall i :: 0 <= i < |eventProcessingThreads| ==>
                eventProcessingThreads[i].shouldCancel ==
                (old(eventProcessingThreads[i].shouldCancel) ||
                  (!eventProcessingThreads[i].event.login &&
                   forall t :: t in eventProcessingThreads[..i + 1] ==> t.event.login || t.isCancelable))
    {
      for i := 0 to |eventProcessingThreads|
        invariant NoRefusal(i)
        invariant forall t :: t in eventProcessingThreads ==>
                    t.running == old(t.running) && t.isCancelable == old(t.isCancelable)
        invariant forall k :: 0 <= k < i ==>
                    eventProcessingThreads[k].shouldCancel ==
                      (old(eventProcessingThreads[k].shouldCancel) || !eventProcessingThreads[k].event.login)
        invariant forall k :: i <= k < |eventProcessingThreads| ==>
                    eventProcessingThreads[k].shouldCancel == old(eventProcessingThreads[k].shouldCancel)
      {
        if !eventProcessingThreads[i].event.login {
          // trying to cancel all non-login events
          var cancelled := eventProcessingThreads[i].Cancel();
          if !cancelled {
            return false;
          }
        }
      }
      return true;
    }
  }

  // ----- the configuration of an event -----

  datatype EventConfig = EventConfig(id: string, preconditions: set<string>)

  predicate Fulfilled(c: EventConfig, holding: set<string>) {
    c.preconditions <= holding
  }

  /** The configuration whose preconditions all hold and that has the most of them, the first of those. */
  method GetEventConfig(configs: seq<EventConfig>, holding: set<string>) returns (found: int)
    ensures -1 <= found < |configs|
    ensures found == -1 ==> forall i :: 0 <= i < |configs| ==> !(configs[i].preconditions <= holding)
    ensures found >= 0 ==> forall c :: c in configs[found].preconditions ==> c in holding
    ensures found >= 0 ==> forall i :: 0 <= i < |configs| && configs[i].preconditions <= holding ==>
              |configs[i].preconditions| < |configs[found].preconditions| ||
              (|configs[i].preconditions| == |configs[found].preconditions| && found <= i)
  {
    found := -1;
    var preconditions := {};
    for i := 0 to |configs|
      invariant -1 <= found < i
      invariant found == -1 ==> preconditions == {}
      invariant found == -1 ==> forall k :: 0 <= k < i ==> !Fulfilled(configs[k], holding)
      invariant found >= 0 ==> preconditions == configs[found].preconditions && Fulfilled(configs[found], holding)
      invariant found >= 0 ==> forall k :: 0 <= k < i && Fulfilled(configs[k], holding) ==>
                  |configs[k].preconditions| < |preconditions| ||
                    (|configs[k].preconditions| == |preconditions| && found <= k)
    {
      if Fulfilled(configs[i], holding) {
        if found == -1 || |configs[i].preconditions| > |preconditions| {
          preconditions := configs[i].preconditions;
          found := i;
        }
      }
    }
  }
}

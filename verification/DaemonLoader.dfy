// The Java side of a stop request (DaemonLoader.java): a controller object grants at most
// one request per start. Each granted request sends the process one signal, and so does
// each reported failure.
module DaemonLoader {
  import opened Child
  import opened Prelude

  // What happens to one Controller object, in the order in which its lock is taken.
  datatype Event =
    | Started          // start(): the daemon's start() returned, then setAvailable(true)
    | Stopping         // stop(): setAvailable(false), before the daemon's stop() is called
    | Asked(reload: bool) // shutdown() or reload()
    | Failed           // fail()

  function Step(available: bool, e: Event): bool {
    match e
    case Started => true
    case _ => false
  }

  function Available(events: seq<Event>): bool {
    if events == [] then false else Step(Available(events[..|events| - 1]), events[|events| - 1])
  }

  // A request is granted exactly when the last thing that happened was a start.
  lemma AvailableIff(events: seq<Event>)
    ensures Available(events) <==> events != [] && events[|events| - 1] == Started
  {
  }

  // The requests that did not throw, oldest first.
  function Granted(events: seq<Event>): seq<bool> {
    if events == [] then []
    else
      var before, e := events[..|events| - 1], events[|events| - 1];
      Granted(before) + if e.Asked? && Available(before) then [e.reload] else []
  }

  function Starts(events: seq<Event>): nat {
    if events == [] then 0
    else Starts(events[..|events| - 1]) + if events[|events| - 1].Started? then 1 else 0
  }

  function Failures(events: seq<Event>): nat {
    if events == [] then 0
    else Failures(events[..|events| - 1]) + if events[|events| - 1].Failed? then 1 else 0
  }

  // main_reload and main_shutdown: kill(controlled, SIGHUP) and kill(controlled, SIGTERM).
  function SignalOf(reload: bool): Signal {
    if reload then Hup else Term
  }

  // The signals that the native part sends, oldest first. Native failed() ends in
  // main_shutdown(), whether or not the controller was available.
  function Sent(events: seq<Event>): seq<Signal> {
    if events == [] then []
    else
      var before, e := events[..|events| - 1], events[|events| - 1];
      Sent(before) + match e {
        case Asked(reload) => if Available(before) then [SignalOf(reload)] else []
        case Failed => [Term]
        case _ => []
      }
  }

  // The first granted request or failure.
  function FirstDecision(events: seq<Event>): Option<Event> {
    if events == [] then None
    else
      var before, e := events[..|events| - 1], events[|events| - 1];
      if FirstDecision(before).Some? then FirstDecision(before)
      else if e.Failed? || (e.Asked? && Available(before)) then Some(e)
      else None
  }

  // DaemonLoader.Controller
  class Controller {
    var available: bool
    ghost var events: seq<Event>
    var sent: seq<Signal>

    ghost predicate Valid()
      reads this
    {
      available == Available(events) && sent == Sent(events)
    }

    constructor ()
      ensures Valid() && events == []
    {
      available, events, sent := false, [], [];
    }

    method SetAvailable(available: bool, ghost e: Event)
      requires Valid() && (e.Started? || e.Stopping?) && available == e.Started?
      modifies this
      ensures Valid() && events == old(events) + [e] && sent == old(sent)
      ensures this.available == available
    {
      this.available := available;
      events := events + [e];
      assert events[..|events| - 1] == old(events);
    }

    // fail()
    method Fail()
      requires Valid()
      modifies this
      ensures Valid() && events == old(events) + [Failed] && !available
      ensures sent == old(sent) + [Term]
    {
      available := false;
      sent := sent + [Term];
      events := events + [Failed];
      assert events[..|events| - 1] == old(events);
    }

    // shutdown() and reload(); a refusal is the IllegalStateException.
    method Ask(reload: bool) returns (granted: bool)
      requires Valid()
      modifies this
      ensures Valid() && events == old(events) + [Asked(reload)]
      ensures granted == old(available) && !available
      ensures sent == old(sent) + if !granted then [] else if reload then [Hup] else [Term]
    {
      granted := available;
      if available {
        available := false;
        sent := sent + [SignalOf(reload)];
      }
      events := events + [Asked(reload)];
      assert events[..|events| - 1] == old(events);
    }
  }

  // The static part of the loader, for a class that implements Daemon. ok tells whether
  // the reflective call into the daemon returns normally.
  class Loader {
    var controller: Controller?

    // start(): a failing daemon never makes the controller available.
    method Start(ok: bool) returns (r: bool)
      requires controller != null ==> controller.Valid()
      modifies controller
      ensures r == ok && controller == old(controller)
      ensures controller != null ==> controller.Valid()
      ensures controller != null ==> controller.events == old(controller.events) + if ok then [Started] else []
      ensures controller != null ==> controller.available == (ok || old(controller.available))
    {
      if !ok {
        return false;
      }
      if controller != null {
        controller.SetAvailable(true, Started);
      }
      return true;
    }

    // stop(): requests are refused from before the daemon's own stop() runs.
    method Stop(ok: bool) returns (r: bool)
      requires controller != null ==> controller.Valid()
      modifies controller
      ensures r == ok && controller == old(controller)
      ensures controller != null ==> controller.Valid() && controller.events == old(controller.events) + [Stopping]
      ensures controller != null ==> !controller.available
    {
      if controller != null {
        controller.SetAvailable(false, Stopping);
      }
      return ok;
    }
  }

  // Granted requests never outnumber completed starts, and when the controller is
  // available one start is still unspent.
  lemma {:induction false} GrantsBoundedByStarts(events: seq<Event>)
    ensures |Granted(events)| + (if Available(events) then 1 else 0) <= Starts(events)
  {
    if events != [] {
      GrantsBoundedByStarts(events[..|events| - 1]);
    }
  }

  // After the start of a process and until the next one, only the first request that finds
  // the controller available is granted.
  lemma {:induction false} OneGrantPerStart(events: seq<Event>)
    requires Starts(events) <= 1
    ensures |Granted(events)| <= 1
  {
    GrantsBoundedByStarts(events);
  }

  // Nothing else sends a signal.
  lemma {:induction false} SignalsAreGrantsAndFailures(events: seq<Event>)
    ensures |Sent(events)| == |Granted(events)| + Failures(events)
    ensures multiset(Sent(events))[Hup] <= Starts(events)
  {
    GrantsBoundedByStarts(events);
    ReloadsAreGranted(events);
    if events != [] {
      SignalsAreGrantsAndFailures(events[..|events| - 1]);
    }
  }

  lemma {:induction false} ReloadsAreGranted(events: seq<Event>)
    ensures multiset(Sent(events))[Hup] <= |Granted(events)|
  {
    if events != [] {
      ReloadsAreGranted(events[..|events| - 1]);
    }
  }

  lemma {:induction false} FirstSignalIsFirstDecision(events: seq<Event>)
    ensures FirstStop(Sent(events)) ==
      match FirstDecision(events) {
        case Some(Asked(reload)) => Some(SignalOf(reload))
        case Some(_) => Some(Term)
        case None => None
      }
    ensures FirstDecision(events).Some? ==> FirstDecision(events).value.Asked? || FirstDecision(events).value.Failed?
  {
    if events != [] {
      var before := events[..|events| - 1];
      FirstSignalIsFirstDecision(before);
      FirstStopConcat(Sent(before), Sent(events)[|Sent(before)|..]);
      assert Sent(events) == Sent(before) + Sent(events)[|Sent(before)|..];
    }
  }

  // A process that is stopped through its controller alone is stopped by the first granted
  // request or failure, and exits with 123, so that it is forked again, exactly when that
  // was a reload.
  lemma ReloadRequestRestarts(events: seq<Event>, w: World, flags: Flags)
    requires flags == HandleAll(CLEAR, Sent(events))
    requires w.javaStop && w.jvmDestroy
    ensures flags.stopping <==> FirstDecision(events).Some?
    ensures flags.stopping ==>
      (StopCode(w, flags.doreload) == 123 <==> FirstDecision(events) == Some(Asked(true)))
    ensures flags.stopping ==>
      (StopCode(w, flags.doreload) == 0 <==> FirstDecision(events) in {Some(Asked(false)), Some(Failed)})
  {
    FirstStopDecides(CLEAR, Sent(events));
    FirstSignalIsFirstDecision(events);
  }

  // The stop signals among those that arrive.
  function Stops(sigs: seq<Signal>): seq<Signal> {
    if sigs == [] then [] else (if IsStop(sigs[0]) then [sigs[0]] else []) + Stops(sigs[1..])
  }

  lemma {:induction false} FirstStopOfStops(sigs: seq<Signal>)
    ensures FirstStop(Stops(sigs)) == FirstStop(sigs)
  {
    if sigs != [] {
      FirstStopOfStops(sigs[1..]);
      if IsStop(sigs[0]) {
        assert Stops(sigs)[0] == sigs[0];
      } else {
        assert Stops(sigs) == Stops(sigs[1..]);
      }
    }
  }

  // From the requests to the exit code of the whole child: the stop signals that reach its
  // sleeps are those of its own controller, mixed with any others.
  method ChildOfRequests(events: seq<Event>, args: Args, w: World, naps: seq<seq<Signal>>) returns (code: Option<int>)
    requires EarlyExit(args, w).None? && w.javaStop && w.jvmDestroy
    requires Stops(Flatten(naps)) == Sent(events)
    ensures code ==
      match FirstDecision(events) {
        case None => None
        case Some(Asked(true)) => Some(123)
        case Some(_) => Some(0)
      }
  {
    FirstStopOfStops(Flatten(naps));
    FirstSignalIsFirstDecision(events);
    assert Flatten(naps) + [] == Flatten(naps);
    var process := new Process();
    code := process.Child(args, w, naps, []);
  }

  // The first decision is what its name says.
  lemma {:induction false} FirstDecisionIsFirst(events: seq<Event>, i: nat)
    requires i < |events|
    requires events[i].Failed? || (events[i].Asked? && Available(events[..i]))
    requires forall k :: 0 <= k < i ==> !events[k].Failed? && (events[k].Asked? ==> !Available(events[..k]))
    ensures FirstDecision(events) == Some(events[i])
    decreases |events|
  {
    var n := |events| - 1;
    if i < n {
      assert forall k :: 0 <= k <= i ==> events[..n][..k] == events[..k];
      FirstDecisionIsFirst(events[..n], i);
    } else {
      NoDecisionYet(events[..n]);
    }
  }

  lemma {:induction false} NoDecisionYet(events: seq<Event>)
    requires forall k :: 0 <= k < |events| ==> !events[k].Failed? && (events[k].Asked? ==> !Available(events[..k]))
    ensures FirstDecision(events).None?
  {
    if events != [] {
      var n := |events| - 1;
      assert forall k :: 0 <= k < n ==> events[..n][..k] == events[..k];
      NoDecisionYet(events[..n]);
    }
  }

  // A failure that is reported first wins over a reload granted later.
  lemma FailureBeforeReload(w: World)
    requires w.javaStop && w.jvmDestroy
    ensures var events := [Failed, Started, Asked(true)];
      Sent(events) == [Term, Hup] && StopCode(w, HandleAll(CLEAR, Sent(events)).doreload) == 0
  {
    var events := [Failed, Started, Asked(true)];
    assert events[..2] == [Failed, Started] && events[..2][..1] == [Failed] && [Failed][..0] == [];
    assert Sent([Failed]) == [Term] && Sent(events[..2]) == [Term] && Available(events[..2]);
    assert Sent(events) == [Term, Hup];
    assert [Term, Hup][1..] == [Hup];
    FirstStopDecides(CLEAR, Sent(events));
  }
}

// The child process of jsvc-unix.c: the signal handler with its latches, the waiting loop,
// and the exit code that tells the controller what to do next.
module Child {
  import opened Prelude

  datatype Signal = Term | Int | Hup | Usr1 | Usr2 | Unknown

  // The static flags of the process.
  datatype Flags = Flags(stopping: bool, doreload: bool, doreopen: bool, dosignal: bool)

  const CLEAR := Flags(false, false, false, false)

  predicate IsStop(sig: Signal) {
    sig.Term? || sig.Int? || sig.Hup?
  }

  function Handle(f: Flags, sig: Signal): Flags {
    match sig
    case Term => f.(stopping := true)
    case Int => f.(stopping := true)
    case Hup => if f.stopping then f else f.(stopping := true, doreload := true)
    case Usr1 => f.(doreopen := true)
    case Usr2 => f.(dosignal := true)
    case Unknown => f
  }

  function HandleAll(f: Flags, sigs: seq<Signal>): Flags
    decreases |sigs|
  {
    if sigs == [] then f else HandleAll(Handle(f, sigs[0]), sigs[1..])
  }

  // The first signal that asks the process to stop.
  function FirstStop(sigs: seq<Signal>): Option<Signal> {
    if sigs == [] then None
    else if IsStop(sigs[0]) then Some(sigs[0])
    else FirstStop(sigs[1..])
  }

  lemma {:induction false} HandleAllConcat(f: Flags, a: seq<Signal>, b: seq<Signal>)
    ensures HandleAll(f, a + b) == HandleAll(HandleAll(f, a), b)
    decreases |a|
  {
    if a == [] {
      assert a + b == b;
    } else {
      assert (a + b)[1..] == a[1..] + b;
      HandleAllConcat(Handle(f, a[0]), a[1..], b);
    }
  }

  // Once a stop is scheduled, no signal changes whether it is a reload.
  lemma {:induction false} DecisionIsFinal(f: Flags, sigs: seq<Signal>)
    requires f.stopping
    ensures HandleAll(f, sigs).stopping && HandleAll(f, sigs).doreload == f.doreload
    decreases |sigs|
  {
    if sigs != [] {
      DecisionIsFinal(Handle(f, sigs[0]), sigs[1..]);
    }
  }

  // For every sequence of signals the first stop signal alone decides.
  lemma {:induction false} FirstStopDecides(f: Flags, sigs: seq<Signal>)
    requires !f.stopping && !f.doreload
    ensures HandleAll(f, sigs).stopping <==> FirstStop(sigs).Some?
    ensures HandleAll(f, sigs).doreload <==> FirstStop(sigs) == Some(Hup)
    decreases |sigs|
  {
    if sigs != [] {
      if IsStop(sigs[0]) {
        DecisionIsFinal(Handle(f, sigs[0]), sigs[1..]);
      } else {
        FirstStopDecides(Handle(f, sigs[0]), sigs[1..]);
      }
    }
  }

  // The command line switches that child() looks at.
  datatype Args = Args(vers: bool, vershow: bool, chck: bool, user: bool)

  // What the calls into the system and the JVM report.
  datatype World = World(
    checkPid: int, linuxUser: bool, javaInit: bool, javaVersion: bool, javaCheck: bool,
    javaLoad: bool, dropCaps: bool, javaStart: bool, javaStop: bool, jvmDestroy: bool)

  // What a wake-up of the waiting loop does.
  datatype Chore = ReopenOutput | JavaSignal

  function ChoresOf(nap: seq<Signal>): seq<Chore> {
    (if Usr1 in nap then [ReopenOutput] else []) + (if Usr2 in nap then [JavaSignal] else [])
  }

  function Flatten(naps: seq<seq<Signal>>): seq<Signal> {
    if naps == [] then [] else naps[0] + Flatten(naps[1..])
  }

  function AllChores(naps: seq<seq<Signal>>): seq<Chore> {
    if naps == [] then [] else ChoresOf(naps[0]) + AllChores(naps[1..])
  }

  // How child() ends when the service has been started and is asked to stop.
  function StopCode(w: World, reload: bool): int {
    if !w.javaStop then 6 else if !w.jvmDestroy then 7 else if reload then 123 else 0
  }

  // How child() ends before the service runs, if it does (the Linux build).
  function EarlyExit(args: Args, w: World): Option<int> {
    if !args.vers && !args.chck && (w.checkPid == 122 || w.checkPid < 0) then Some(w.checkPid)
    else if !w.linuxUser then Some(4)
    else if !w.javaInit then Some(1)
    else if args.vers then Some(if w.javaVersion then 0 else -1)
    else if args.vershow && !w.javaVersion then Some(7)
    else if args.chck then Some(if w.javaCheck then 0 else 2)
    else if !w.javaLoad then Some(3)
    else if args.user && !w.dropCaps then Some(4)
    else if !w.javaStart then Some(5)
    else None
  }

  // What each exit code of a child that never ran its service says.
  lemma EarlyExitMeans(args: Args, w: World)
    ensures var e, ordinary := EarlyExit(args, w), !args.vers && !args.chck;
      var claimed := ordinary ==> w.checkPid >= 0 && w.checkPid != 122;
      var jvm := claimed && w.linuxUser && w.javaInit;
      var shown := jvm && !args.vers && (args.vershow ==> w.javaVersion);
      var able := args.user ==> w.dropCaps;
      && (e == Some(122) <==> ordinary && w.checkPid == 122)
      && (e.Some? && e.value < 0 <==> (ordinary && w.checkPid < 0) || (jvm && args.vers && !w.javaVersion))
      && (ordinary && w.checkPid < 0 ==> e == Some(w.checkPid))
      && (e == Some(1) <==> claimed && w.linuxUser && !w.javaInit)
      && (e == Some(2) <==> shown && args.chck && !w.javaCheck)
      && (e == Some(3) <==> shown && !args.chck && !w.javaLoad)
      && (e == Some(4) <==> (claimed && !w.linuxUser) || (shown && !args.chck && w.javaLoad && !able))
      && (e == Some(5) <==> shown && !args.chck && w.javaLoad && able && !w.javaStart)
      && (e == Some(7) <==> jvm && !args.vers && args.vershow && !w.javaVersion)
      && (e == Some(0) <==> (jvm && args.vers && w.javaVersion) || (shown && args.chck && w.javaCheck))
      && (e == None <==> shown && !args.chck && w.javaLoad && able && w.javaStart)
  {
  }

  // And of one that did.
  lemma StopCodeMeans(w: World, reload: bool)
    ensures StopCode(w, reload) == 6 <==> !w.javaStop
    ensures StopCode(w, reload) == 7 <==> w.javaStop && !w.jvmDestroy
    ensures StopCode(w, reload) == 123 <==> w.javaStop && w.jvmDestroy && reload
    ensures StopCode(w, reload) == 0 <==> w.javaStop && w.jvmDestroy && !reload
  {
  }

  // The first signal among TERM, INT and HUP is the one that stops the process.
  lemma {:induction false} FirstStopIs(sigs: seq<Signal>, k: nat)
    requires k < |sigs| && sigs[k] in {Term, Int, Hup}
    requires forall i :: 0 <= i < k ==> sigs[i] !in {Term, Int, Hup}
    ensures FirstStop(sigs) == Some(sigs[k])
    decreases k
  {
    if k > 0 {
      FirstStopIs(sigs[1..], k - 1);
    }
  }

  lemma {:induction false} NoStopIff(sigs: seq<Signal>)
    ensures FirstStop(sigs).None? <==> forall i :: 0 <= i < |sigs| ==> sigs[i] !in {Term, Int, Hup}
    decreases |sigs|
  {
    if sigs != [] && !IsStop(sigs[0]) {
      NoStopIff(sigs[1..]);
      assert forall i :: 0 < i < |sigs| ==> sigs[i] == sigs[1..][i - 1];
    }
  }

  // What one more sleep adds to the chores: the output is reopened at most once, and before
  // the JVM is signalled.
  lemma ChoresOfOneMore(naps: seq<seq<Signal>>, nap: seq<Signal>)
    ensures AllChores([]) == []
    ensures AllChores(naps + [nap]) ==
      AllChores(naps) + (if Usr1 in nap then [ReopenOutput] else []) + (if Usr2 in nap then [JavaSignal] else [])
  {
    var all := naps + [nap];
    ChoresSplit(all, |naps|);
    assert all[..|naps|] == naps && all[|naps|..] == [nap];
    assert AllChores([nap]) == ChoresOf(nap) + AllChores([]);
  }

  // One process, from fork to exit.
  class Process {
    var stopping: bool
    var doreload: bool
    var doreopen: bool
    var dosignal: bool
    var chores: seq<Chore>

    constructor ()
      ensures State() == CLEAR && chores == []
    {
      stopping, doreload, doreopen, dosignal := false, false, false, false;
      chores := [];
    }

    function State(): Flags
      reads this
    {
      Flags(stopping, doreload, doreopen, dosignal)
    }

    // handler()
    method Handler(sig: Signal)
      modifies this
      ensures State() == Handle(old(State()), sig) && chores == old(chores)
    {
      match sig
      case Term =>
        if !stopping {
          stopping := true;
        }
      case Int =>
        if !stopping {
          stopping := true;
        }
      case Hup =>
        if !stopping {
          stopping := true;
          doreload := true;
        }
      case Usr1 => doreopen := true;
      case Usr2 => dosignal := true;
      case Unknown =>
    }

    // The signals that arrive while the process sleeps.
    method Deliver(sigs: seq<Signal>)
      modifies this
      ensures State() == HandleAll(old(State()), sigs) && chores == old(chores)
    {
      var i := 0;
      while i < |sigs|
        invariant i <= |sigs| && chores == old(chores)
        invariant HandleAll(State(), sigs[i..]) == HandleAll(old(State()), sigs)
      {
        Handler(sigs[i]);
        i := i + 1;
      }
    }

    // child(): naps are the signals of the successive sleeps, late those that arrive after
    // the loop has been left. No result means that the process is still waiting when the
    // naps are used up.
    method Child(args: Args, w: World, naps: seq<seq<Signal>>, late: seq<Signal>) returns (code: Option<int>)
      requires State() == CLEAR && chores == []
      modifies this
      ensures !args.vers && !args.chck && w.checkPid == 122 ==> code == Some(122)
      ensures code == Some(122) ==> !args.vers && !args.chck && w.checkPid == 122
      ensures code == Some(123) <==>
        && EarlyExit(args, w).None? && FirstStop(Flatten(naps)).Some? && w.javaStop && w.jvmDestroy
        && FirstStop(Flatten(naps) + late) == Some(Hup)
      ensures EarlyExit(args, w).Some? ==> code == EarlyExit(args, w) && chores == []
      ensures EarlyExit(args, w).None? && FirstStop(Flatten(naps)).None? ==> code == None && chores == AllChores(naps)
      ensures EarlyExit(args, w).None? && FirstStop(Flatten(naps)).Some? ==>
        code == Some(StopCode(w, FirstStop(Flatten(naps) + late) == Some(Hup)))
      ensures EarlyExit(args, w).None? && FirstStop(Flatten(naps)).Some? ==>
        exists k :: 0 < k <= |naps| && chores == AllChores(naps[..k])
          && FirstStop(Flatten(naps[..k])).Some? && FirstStop(Flatten(naps[..k - 1])).None?
    {
      var ret := w.checkPid;
      if !args.vers && !args.chck {
        if ret == 122 { return Some(ret); }
        if ret < 0 { return Some(ret); }
      }
      if !w.linuxUser { return Some(4); }
      if !w.javaInit { return Some(1); }
      if args.vers {
        return Some(if w.javaVersion then 0 else -1);
      } else if args.vershow {
        if !w.javaVersion { return Some(7); }
      }
      if args.chck {
        return Some(if w.javaCheck then 0 else 2);
      }
      if !w.javaLoad { return Some(3); }
      if args.user && !w.dropCaps { return Some(4); }
      if !w.javaStart { return Some(5); }

      assert naps[..0] == [];
      var i := 0;
      while !stopping
        invariant i <= |naps| && chores == AllChores(naps[..i])
        invariant !doreopen && !dosignal
        invariant stopping <==> FirstStop(Flatten(naps[..i])).Some?
        invariant doreload <==> FirstStop(Flatten(naps[..i])) == Some(Hup)
        invariant stopping ==> i > 0 && FirstStop(Flatten(naps[..i - 1])).None?
        decreases |naps| - i
      {
        if i == |naps| {
          assert naps[..i] == naps;
          return None;
        }
        NapStep(naps, i, State());
        Deliver(naps[i]);
        if doreopen {
          doreopen := false;
          chores := chores + [ReopenOutput];
        }
        if dosignal {
          dosignal := false;
          chores := chores + [JavaSignal];
        }
        i := i + 1;
      }
      FirstStopIsEarly(naps, i, late);
      DecisionIsFinal(State(), late);
      Deliver(late);
      if !w.javaStop { return Some(6); }
      ret := if doreload then 123 else 0;
      if !w.jvmDestroy { return Some(7); }
      return Some(ret);
    }
  }

  lemma {:induction false} FirstStopConcat(a: seq<Signal>, b: seq<Signal>)
    ensures FirstStop(a + b) == if FirstStop(a).Some? then FirstStop(a) else FirstStop(b)
  {
    if a == [] {
      assert a + b == b;
    } else {
      assert (a + b)[1..] == a[1..] + b;
      FirstStopConcat(a[1..], b);
    }
  }

  lemma {:induction false} FlattenSplit(naps: seq<seq<Signal>>, i: nat)
    requires i <= |naps|
    ensures Flatten(naps) == Flatten(naps[..i]) + Flatten(naps[i..])
  {
    if i == 0 {
      assert naps[..0] == [] && naps[0..] == naps;
    } else {
      FlattenSplit(naps[1..], i - 1);
      assert naps[..i][1..] == naps[1..][..i - 1];
      assert naps[1..][i - 1..] == naps[i..];
    }
  }

  lemma {:induction false} ChoresSplit(naps: seq<seq<Signal>>, i: nat)
    requires i <= |naps|
    ensures AllChores(naps) == AllChores(naps[..i]) + AllChores(naps[i..])
  {
    if i == 0 {
      assert naps[..0] == [] && naps[0..] == naps;
    } else {
      ChoresSplit(naps[1..], i - 1);
      assert naps[..i][1..] == naps[1..][..i - 1];
      assert naps[1..][i - 1..] == naps[i..];
    }
  }

  lemma {:induction false} LatchesOf(f: Flags, sigs: seq<Signal>)
    ensures HandleAll(f, sigs).doreopen <==> f.doreopen || Usr1 in sigs
    ensures HandleAll(f, sigs).dosignal <==> f.dosignal || Usr2 in sigs
    decreases |sigs|
  {
    if sigs != [] {
      LatchesOf(Handle(f, sigs[0]), sigs[1..]);
    }
  }

  // One sleep of the waiting loop.
  lemma NapStep(naps: seq<seq<Signal>>, i: nat, f: Flags)
    requires i < |naps| && f == CLEAR && FirstStop(Flatten(naps[..i])).None?
    ensures var g := HandleAll(f, naps[i]);
      && (g.stopping <==> FirstStop(Flatten(naps[..i + 1])).Some?)
      && (g.doreload <==> FirstStop(Flatten(naps[..i + 1])) == Some(Hup))
      && (g.doreopen <==> Usr1 in naps[i]) && (g.dosignal <==> Usr2 in naps[i])
    ensures AllChores(naps[..i + 1]) == AllChores(naps[..i]) + ChoresOf(naps[i])
  {
    FlattenSplit(naps[..i + 1], i);
    ChoresSplit(naps[..i + 1], i);
    assert naps[..i + 1][..i] == naps[..i] && naps[..i + 1][i..] == [naps[i]];
    assert Flatten([naps[i]]) == naps[i] && AllChores([naps[i]]) == ChoresOf(naps[i]);
    FirstStopConcat(Flatten(naps[..i]), naps[i]);
    FirstStopDecides(f, naps[i]);
    LatchesOf(f, naps[i]);
  }

  lemma FirstStopIsEarly(naps: seq<seq<Signal>>, i: nat, late: seq<Signal>)
    requires i <= |naps| && FirstStop(Flatten(naps[..i])).Some?
    ensures FirstStop(Flatten(naps)) == FirstStop(Flatten(naps[..i]))
    ensures FirstStop(Flatten(naps) + late) == FirstStop(Flatten(naps[..i]))
  {
    FlattenSplit(naps, i);
    FirstStopConcat(Flatten(naps[..i]), Flatten(naps[i..]));
    FirstStopConcat(Flatten(naps), late);
  }
}

// The PID file of jsvc-unix.c: several controllers, each with at most one child, share one
// path. A child claims the path under a file lock in check_pid; a controller unlinks the
// path after its child has exited. Locks and contents belong to the file that was opened,
// not to the path, so a file that has been unlinked lives on for those who hold it open.
module PidFile {
  import opened Numerals
  import opened Prelude

  // ---- The text in the file ----

  // fprintf(pidf, "%d\n", pid) at offset 0; the file is not truncated.
  function Overwrite(text: string, content: string): string {
    text + if |text| < |content| then content[|text|..] else ""
  }

  function Line(pid: nat): string {
    Decimal(pid) + "\n"
  }

  // read() of at most 80 bytes.
  function Seen(content: string): string {
    if |content| > 80 then content[..80] else content
  }

  // read(), then atoi; an empty file names nobody.
  function Names(content: string): Option<int> {
    if content == "" then None else Some(Atoi(Seen(content)))
  }

  const PID_LIMIT: nat := 0x8000_0000

  // Whatever stood in the file before, the new pid is read back.
  lemma ClaimReadsBack(pid: nat, content: string)
    requires pid < PID_LIMIT
    ensures Names(Overwrite(Line(pid), content)) == Some(pid)
  {
    assert Pow10(10) == 10_000_000_000;
    DecimalLength(pid, 10);
    var now := Overwrite(Line(pid), content);
    var seen := Seen(now);
    assert seen == Line(pid) + seen[|Line(pid)|..];
    AtoiOfLine(pid, seen[|Line(pid)|..]);
  }

  // ---- Processes ----

  datatype Status = Code(code: nat) | Killed

  // Where a child is in check_pid and after it.
  datatype Phase =
    | Start                  // forked, check_pid not yet entered
    | Opened(file: nat)      // open() returned
    | Locked(file: nat)      // lockf(F_LOCK) returned
    | Checked(file: nat)     // the file named no running process
    | Claimed(file: nat)     // the pid is written, the lock still held
    | Past                   // check_pid returned 0
    | Refusing(file: nat)    // the file names a running process; about to return 122
    | Zombie(status: Status) // exited, not yet waited for

  datatype Controller =
    | Idle                      // about to fork
    | Waiting(child: nat)       // in waitpid
    | Collected(status: Status) // waitpid returned; the child is gone
    | Decided(code: nat)        // after the unlink, if there was one
    | Done                      // run_controller returned

  datatype State = State(
    files: map<nat, string>,      // every file ever created at the path
    path: Option<nat>,            // the one the path leads to
    locks: map<nat, nat>,         // file to pid
    children: map<nat, Phase>,    // by pid
    controllers: map<nat, Controller>,
    others: set<int>,             // numbers outside this protocol for which kill(x, 0) succeeds for now
    lasting: set<int>)            // and those for which it succeeds as long as the run lasts

  datatype Action =
    | Launch(c: nat)
    | Fork(c: nat, p: nat)
    | Open(p: nat, file: nat)
    | Lock(p: nat)
    | Check(p: nat)
    | Claim(p: nat)
    | Release(p: nat)
    | Refuse(p: nat)
    | Exit(p: nat, code: nat)   // open() failed, or the service ended
    | Kill(p: nat)
    | Reap(c: nat)
    | Unlink(c: nat)
    | Decide(c: nat)
    | OtherEnds(x: int)

  // Numbers for which kill(x, 0) never fails: 0, which stands for the caller's own process
  // group, and whatever outlives the run, like init or a process group that is never empty.
  predicate Lasts(s: State, x: int) {
    x == 0 || x in s.lasting
  }

  // kill(x, 0) == 0; a zombie still counts.
  predicate Running(s: State, x: int) {
    Lasts(s, x) || (x >= 0 && x in s.children) || x in s.others
  }

  predicate NamesRunning(s: State, file: nat) {
    file in s.files && Names(s.files[file]).Some? && Running(s, Names(s.files[file]).value)
  }

  // A pid that fork() may return.
  predicate IsFree(s: State, p: nat) {
    0 < p < PID_LIMIT && !Running(s, p)
  }

  predicate HasLock(ph: Phase) {
    ph.Locked? || ph.Checked? || ph.Claimed? || ph.Refusing?
  }

  predicate Enabled(s: State, a: Action) {
    match a
    case Launch(c) => c !in s.controllers
    case Fork(c, p) =>
      c in s.controllers && s.controllers[c].Idle? && IsFree(s, p)
    case Open(p, file) =>
      && p in s.children && s.children[p].Start?
      && (if s.path.Some? then file == s.path.value else file !in s.files)
    case Lock(p) => p in s.children && s.children[p].Opened? && s.children[p].file !in s.locks
    case Check(p) => p in s.children && s.children[p].Locked?
    case Claim(p) => p in s.children && s.children[p].Checked? && s.children[p].file in s.files
    case Release(p) => p in s.children && s.children[p].Claimed?
    case Refuse(p) => p in s.children && s.children[p].Refusing?
    case Exit(p, code) => p in s.children && (s.children[p].Start? || s.children[p].Past?)
    case Kill(p) => p in s.children && !s.children[p].Zombie?
    case Reap(c) =>
      && c in s.controllers && s.controllers[c].Waiting?
      && s.controllers[c].child in s.children && s.children[s.controllers[c].child].Zombie?
    case Unlink(c) =>
      && c in s.controllers && s.controllers[c].Collected?
      && s.controllers[c].status.Code? && s.controllers[c].status.code != 122
    case Decide(c) =>
      && c in s.controllers
      && (s.controllers[c].Decided? || s.controllers[c] == Collected(Code(122)) || s.controllers[c] == Collected(Killed))
    case OtherEnds(x) => x in s.others && !Lasts(s, x)
  }

  function Unlock(locks: map<nat, nat>, ph: Phase): map<nat, nat> {
    if HasLock(ph) then map f | f in locks && f != ph.file :: locks[f] else locks
  }

  function MoveTo(s: State, p: nat, ph: Phase): State {
    s.(children := s.children[p := ph])
  }

  function Next(s: State, a: Action): State
    requires Enabled(s, a)
  {
    match a
    case Launch(c) => s.(controllers := s.controllers[c := Idle])
    case Fork(c, p) => MoveTo(s, p, Start).(controllers := s.controllers[c := Waiting(p)])
    case Open(p, file) =>
      MoveTo(s, p, Opened(file)).(
        files := if s.path.None? then s.files[file := ""] else s.files, path := Some(file))
    case Lock(p) => MoveTo(s, p, Locked(s.children[p].file)).(locks := s.locks[s.children[p].file := p])
    case Check(p) =>
      var file := s.children[p].file;
      MoveTo(s, p, if NamesRunning(s, file) then Refusing(file) else Checked(file))
    case Claim(p) =>
      var file := s.children[p].file;
      MoveTo(s, p, Claimed(file)).(files := s.files[file := Overwrite(Line(p), s.files[file])])
    case Release(p) => MoveTo(s, p, Past).(locks := Unlock(s.locks, s.children[p]))
    case Refuse(p) => MoveTo(s, p, Zombie(Code(122))).(locks := Unlock(s.locks, s.children[p]))
    case Exit(p, code) => MoveTo(s, p, Zombie(Code(code)))
    case Kill(p) => MoveTo(s, p, Zombie(Killed)).(locks := Unlock(s.locks, s.children[p]))
    case Reap(c) =>
      var p := s.controllers[c].child;
      s.(controllers := s.controllers[c := Collected(s.children[p].status)],
         children := map q | q in s.children && q != p :: s.children[q])
    case Unlink(c) => s.(path := None, controllers := s.controllers[c := Decided(s.controllers[c].status.code)])
    case Decide(c) =>
      var again := s.controllers[c] == Decided(123) || s.controllers[c] == Collected(Killed);
      s.(controllers := s.controllers[c := if again then Idle else Done])
    case OtherEnds(x) => s.(others := s.others - {x})
  }

  ghost predicate Run(s: State, actions: seq<Action>, t: State)
    decreases |actions|
  {
    if actions == [] then s == t
    else Enabled(s, actions[0]) && Run(Next(s, actions[0]), actions[1..], t)
  }

  // ---- What every step keeps, whatever the controllers unlink ----

  // No two controllers wait for the same child.
  ghost predicate Parents(s: State) {
    && (forall c :: c in s.controllers && s.controllers[c].Waiting? ==> s.controllers[c].child in s.children)
    && (forall c, d :: c in s.controllers && d in s.controllers && c != d ==>
          s.controllers[c].Waiting? ==> s.controllers[d].Waiting? ==> s.controllers[c].child != s.controllers[d].child)
  }

  lemma StepKeepsParents(s: State, a: Action)
    requires Parents(s) && Enabled(s, a)
    ensures Parents(Next(s, a))
  {
    hide Names, Overwrite, Line;
  }

  ghost predicate WaitedFor(s: State, p: nat) {
    exists c :: c in s.controllers && s.controllers[c] == Waiting(p)
  }

  ghost predicate OwnsLock(s: State, f: nat)
    requires f in s.locks
  {
    s.locks[f] in s.children && HasLock(s.children[s.locks[f]]) && s.children[s.locks[f]].file == f
  }

  ghost predicate Orderly(s: State) {
    && Parents(s)
    && (forall p :: p in s.children ==> WaitedFor(s, p))
    && (forall f :: f in s.locks ==> f in s.files && OwnsLock(s, f))
    && (forall p :: p in s.children && MayClaim(s.children[p]) ==> s.children[p].file in s.files)
    && (s.path.Some? ==> s.path.value in s.files)
  }

  lemma StepKeepsOrderly(s: State, a: Action)
    requires Orderly(s) && Enabled(s, a)
    ensures Orderly(Next(s, a))
  {
    StepKeepsParents(s, a);
    StepKeepsWaited(s, a);
    StepKeepsLocks(s, a);
    StepKeepsFiles(s, a);
    hide Names, Overwrite, Line, Parents, WaitedFor, OwnsLock, Next, Enabled;
  }

  lemma StepKeepsFiles(s: State, a: Action)
    requires Orderly(s) && Enabled(s, a)
    ensures forall p :: p in Next(s, a).children && MayClaim(Next(s, a).children[p]) ==>
      Next(s, a).children[p].file in Next(s, a).files
    ensures Next(s, a).path.Some? ==> Next(s, a).path.value in Next(s, a).files
  {
    hide Names, Overwrite, Line, Parents, WaitedFor, OwnsLock, Unlock;
  }

  lemma StepKeepsWaited(s: State, a: Action)
    requires Orderly(s) && Enabled(s, a)
    ensures forall p :: p in Next(s, a).children ==> WaitedFor(Next(s, a), p)
  {
    hide Names, Overwrite, Line;
    var t := Next(s, a);
    forall p | p in t.children
      ensures WaitedFor(t, p)
    {
      if a.Fork? && p == a.p {
        assert t.controllers[a.c] == Waiting(p);
      } else {
        var c :| c in s.controllers && s.controllers[c] == Waiting(p);
        assert t.controllers[c] == Waiting(p);
      }
    }
  }

  lemma StepKeepsLocks(s: State, a: Action)
    requires Orderly(s) && Enabled(s, a)
    ensures forall f :: f in Next(s, a).locks ==> f in Next(s, a).files && OwnsLock(Next(s, a), f)
  {
    hide Names, Overwrite, Line, Parents, WaitedFor;
    var t := Next(s, a);
    forall f | f in t.locks
      ensures f in t.files && OwnsLock(t, f)
    {
      assert f in s.locks ==> OwnsLock(s, f);
    }
  }

  lemma {:induction false} RunsAreOrderly(s: State, actions: seq<Action>, t: State)
    requires Orderly(s) && Run(s, actions, t)
    ensures Orderly(t)
    decreases |actions|
  {
    if actions != [] {
      StepKeepsOrderly(s, actions[0]);
      RunsAreOrderly(Next(s, actions[0]), actions[1..], t);
    }
  }

  // ---- Exclusion ----

  // A live child that owns the service: it has written the file.
  predicate Holder(s: State, p: nat) {
    p in s.children && (s.children[p].Claimed? || s.children[p].Past?)
  }

  // The file that the path leads to holds the pid p.
  predicate FileNames(s: State, p: nat) {
    && s.path.Some? && s.path.value in s.files
    && Names(s.files[s.path.value]).Some? && Names(s.files[s.path.value]).value == p
  }

  // Inside check_pid with the file open, and not about to be refused.
  predicate MayClaim(ph: Phase) {
    ph.Opened? || ph.Locked? || ph.Checked? || ph.Claimed?
  }

  // The child has yet to read a file that names the child itself, or a number for which kill
  // never fails, as every text does that atoi reads as 0: the child will be refused.
  predicate WillRefuse(s: State, p: nat, ph: Phase) {
    && (ph.Opened? || ph.Locked?) && ph.file in s.files && Names(s.files[ph.file]).Some?
    && (Names(s.files[ph.file]).value == p || Lasts(s, Names(s.files[ph.file]).value))
  }

  // The claim: at most one holder, and the file names it.
  ghost predicate Exclusive(s: State) {
    && (forall p, q :: Holder(s, p) && Holder(s, q) ==> p == q)
    && (forall p :: Holder(s, p) ==> FileNames(s, p))
  }

  ghost predicate Inv(s: State) {
    && (s.path.Some? ==> s.path.value in s.files)
    && (forall p :: p in s.children && MayClaim(s.children[p]) ==>
          s.path == Some(s.children[p].file) || WillRefuse(s, p, s.children[p]))
    && (forall p :: p in s.children && HasLock(s.children[p]) ==>
          s.children[p].file in s.locks && s.locks[s.children[p].file] == p)
    && (forall p :: Holder(s, p) ==> FileNames(s, p))
    && (forall p, q :: p in s.children && s.children[p].Checked? ==> !Holder(s, q))
    && (forall p :: p in s.children ==> p < PID_LIMIT)
    && (forall f :: f in s.locks ==> f in s.files)
  }

  // An unlink that takes the file away from nobody: no child owns the service, and each one
  // inside check_pid with the file open is bound to be refused.
  ghost predicate SafeUnlink(s: State) {
    forall p :: p in s.children ==>
      !s.children[p].Past? && (MayClaim(s.children[p]) ==> WillRefuse(s, p, s.children[p]))
  }

  ghost predicate SafeRun(s: State, actions: seq<Action>, t: State)
    decreases |actions|
  {
    if actions == [] then s == t
    else
      && Enabled(s, actions[0])
      && (actions[0].Unlink? ==> SafeUnlink(s))
      && SafeRun(Next(s, actions[0]), actions[1..], t)
  }

  // Only a claim makes a holder.
  lemma HoldersShrink(s: State, a: Action, q: nat)
    requires Enabled(s, a) && !a.Claim? && Holder(Next(s, a), q)
    ensures Holder(s, q)
  {
  }

  lemma FileNamesKept(s: State, a: Action, q: nat)
    requires Inv(s) && Enabled(s, a) && (a.Unlink? ==> SafeUnlink(s))
    requires !a.Claim? && FileNames(s, q) && Holder(s, q)
    requires Holder(Next(s, a), q)
    ensures FileNames(Next(s, a), q)
  {
  }

  lemma HoldersStayNamed(s: State, a: Action)
    requires Inv(s) && Enabled(s, a) && (a.Unlink? ==> SafeUnlink(s)) && !a.Claim?
    ensures forall q :: Holder(Next(s, a), q) ==> FileNames(Next(s, a), q)
  {
    hide Names, Overwrite, Line;
    forall q | Holder(Next(s, a), q)
      ensures FileNames(Next(s, a), q)
    {
      HoldersShrink(s, a, q);
      FileNamesKept(s, a, q);
    }
  }

  // While a child stands between its check and its claim, there is no holder.
  lemma CheckedStaysAlone(s: State, a: Action)
    requires Inv(s) && Enabled(s, a) && !a.Claim? && !a.Check?
    ensures forall p, q :: p in Next(s, a).children && Next(s, a).children[p].Checked? ==> !Holder(Next(s, a), q)
  {
    var t := Next(s, a);
    forall p, q | p in t.children && t.children[p].Checked?
      ensures !Holder(t, q)
    {
      assert p in s.children && s.children[p].Checked?;
      if Holder(t, q) {
        HoldersShrink(s, a, q);
      }
    }
  }

  lemma ClaimKeepsInv(s: State, p: nat)
    requires Inv(s) && Enabled(s, Claim(p))
    ensures Inv(Next(s, Claim(p)))
  {
    ClaimReadsBack(p, s.files[s.children[p].file]);
    hide Names, Overwrite, Line;
    var t := Next(s, Claim(p));
    forall q | Holder(t, q)
      ensures FileNames(t, q)
    {
      assert q != p ==> Holder(s, q);
      assert MayClaim(s.children[p]);
    }
    forall q | q in s.children && s.children[q].Checked?
      ensures q == p
    {
      assert MayClaim(s.children[q]) && HasLock(s.children[q]);
      assert MayClaim(s.children[p]) && HasLock(s.children[p]);
    }
  }

  lemma CheckKeepsInv(s: State, p: nat)
    requires Inv(s) && Enabled(s, Check(p))
    ensures Inv(Next(s, Check(p)))
  {
    hide Names;
    HoldersStayNamed(s, Check(p));
    var t := Next(s, Check(p));
    forall q | Holder(t, q)
      ensures NamesRunning(s, s.children[p].file)
    {
      HoldersShrink(s, Check(p), q);
      assert FileNames(s, q) && MayClaim(s.children[p]);
    }
    forall r, q | r in t.children && t.children[r].Checked?
      ensures !Holder(t, q)
    {
      assert r != p ==> s.children[r].Checked?;
      if Holder(t, q) {
        HoldersShrink(s, Check(p), q);
      }
    }
  }

  // Whoever may still claim has the file that the path leads to, or will be refused.
  lemma StepKeepsTrack(s: State, a: Action)
    requires Inv(s) && Enabled(s, a) && (a.Unlink? ==> SafeUnlink(s)) && !a.Claim? && !a.Check?
    ensures forall p :: p in Next(s, a).children && MayClaim(Next(s, a).children[p]) ==>
      Next(s, a).path == Some(Next(s, a).children[p].file) || WillRefuse(Next(s, a), p, Next(s, a).children[p])
  {
    hide Names, Overwrite, Line, Holder, FileNames;
  }

  lemma StepKeepsHeldLocks(s: State, a: Action)
    requires Inv(s) && Enabled(s, a) && !a.Claim? && !a.Check?
    ensures forall p :: p in Next(s, a).children && HasLock(Next(s, a).children[p]) ==>
      Next(s, a).children[p].file in Next(s, a).locks && Next(s, a).locks[Next(s, a).children[p].file] == p
    ensures forall f :: f in Next(s, a).locks ==> f in Next(s, a).files
    ensures Next(s, a).path.Some? ==> Next(s, a).path.value in Next(s, a).files
    ensures forall p :: p in Next(s, a).children ==> p < PID_LIMIT
  {
    hide Names, Overwrite, Line, Holder, FileNames;
  }

  lemma StepKeepsInv(s: State, a: Action)
    requires Inv(s) && Enabled(s, a) && (a.Unlink? ==> SafeUnlink(s))
    ensures Inv(Next(s, a))
  {
    if a.Claim? {
      ClaimKeepsInv(s, a.p);
    } else if a.Check? {
      CheckKeepsInv(s, a.p);
    } else {
      HoldersStayNamed(s, a);
      CheckedStaysAlone(s, a);
      StepKeepsTrack(s, a);
      StepKeepsHeldLocks(s, a);
    }
    hide Names, Overwrite, Line, Next, Enabled, Holder, FileNames, WillRefuse, SafeUnlink, MayClaim, HasLock;
  }

  lemma InvIsExclusive(s: State)
    requires Inv(s)
    ensures Exclusive(s)
  {
    forall p, q | Holder(s, p) && Holder(s, q)
      ensures p == q
    {
      assert FileNames(s, p) && FileNames(s, q);
    }
  }

  // Nobody holds the service when the first controller is launched; the path may already
  // lead to a file with any content.
  ghost predicate Init(s: State) {
    s.children == map[] && s.controllers == map[] && s.locks == map[] && (s.path.Some? ==> s.path.value in s.files)
  }

  // Safety over whole runs: if no unlink takes the file away from anybody, then every
  // state of every run is exclusive.
  lemma {:induction false} SafeRunsAreExclusive(s: State, actions: seq<Action>, t: State)
    requires Inv(s) && SafeRun(s, actions, t)
    ensures Inv(t) && Exclusive(t)
    decreases |actions|
  {
    if actions == [] {
      InvIsExclusive(t);
    } else {
      StepKeepsInv(s, actions[0]);
      SafeRunsAreExclusive(Next(s, actions[0]), actions[1..], t);
    }
  }

  lemma InitIsInv(s: State)
    requires Init(s)
    ensures Inv(s) && Orderly(s)
  {
  }

  // ---- What an unsafe unlink costs ----

  lemma {:induction false} RunAppend(s: State, a: seq<Action>, t: State, b: seq<Action>, u: State)
    requires Run(s, a, t) && Run(t, b, u)
    ensures Run(s, a + b, u)
    decreases |a|
  {
    if a == [] {
      assert a + b == b;
    } else {
      RunAppend(Next(s, a[0]), a[1..], t, b, u);
      assert (a + b)[1..] == a[1..] + b;
    }
  }

  lemma RunOne(s: State, a: Action)
    requires Enabled(s, a)
    ensures Run(s, [a], Next(s, a))
  {
    assert [a][1..] == [];
  }

  // A child that nothing keeps from finishing check_pid.
  predicate CanClaim(s: State, p: nat) {
    p in s.children &&
    match s.children[p]
    case Opened(f) => f in s.files && f !in s.locks && !NamesRunning(s, f)
    case Locked(f) => f in s.files && !NamesRunning(s, f)
    case Checked(f) => f in s.files
    case Claimed(_) => true
    case Past => true
    case _ => false
  }

  function Remaining(ph: Phase): nat {
    match ph
    case Opened(_) => 4
    case Locked(_) => 3
    case Checked(_) => 2
    case Claimed(_) => 1
    case _ => 0
  }

  lemma {:induction false} ClaimGoesThrough(s: State, p: nat) returns (actions: seq<Action>, t: State)
    requires CanClaim(s, p)
    ensures Run(s, actions, t) && forall a :: a in actions ==> !a.Unlink?
    ensures t.children == s.children[p := Past]
    ensures t.path == s.path && t.controllers == s.controllers && t.others == s.others && t.lasting == s.lasting
    ensures t.files.Keys == s.files.Keys && t.locks.Keys <= s.locks.Keys
    ensures !s.children[p].Past? ==> s.children[p].file !in t.locks
    decreases Remaining(s.children[p])
  {
    hide Names, Overwrite, Line;
    if s.children[p].Past? {
      actions, t := [], s;
      assert s.children[p := Past] == s.children;
    } else {
      var a := match s.children[p] {
        case Opened(_) => Lock(p)
        case Locked(_) => Check(p)
        case Checked(_) => Claim(p)
        case _ => Release(p)
      };
      var rest;
      assert s.children[p].Locked? || s.children[p].Opened? ==> !NamesRunning(Next(s, a), s.children[p].file);
      rest, t := ClaimGoesThrough(Next(s, a), p);
      actions := [a] + rest;
      assert actions[1..] == rest;
    }
  }

  lemma {:induction false} MaxPlusOne(used: set<nat>) returns (n: nat)
    ensures forall x :: x in used ==> x < n
  {
    if used == {} {
      n := 0;
    } else {
      var x :| x in used;
      var m := MaxPlusOne(used - {x});
      n := if x < m then m else x + 1;
      assert forall y :: y in used ==> y == x || y in used - {x};
    }
  }

  lemma RunTwo(s: State, a: Action, b: Action)
    requires Enabled(s, a) && Enabled(Next(s, a), b)
    ensures Run(s, [a, b], Next(Next(s, a), b))
  {
    assert [a, b][1..] == [b] && [b][1..] == [];
  }

  // A new controller, its child, and the child's open().
  lemma NewcomerOpens(s: State, q: nat, file: nat) returns (actions: seq<Action>, t: State, c: nat)
    requires IsFree(s, q)
    requires if s.path.Some? then file == s.path.value else file !in s.files
    ensures Run(s, actions, t) && forall a :: a in actions ==> !a.Unlink?
    ensures c !in s.controllers
    ensures t == State(if s.path.None? then s.files[file := ""] else s.files, Some(file), s.locks,
                       s.children[q := Opened(file)], s.controllers[c := Waiting(q)], s.others, s.lasting)
  {
    c := MaxPlusOne(s.controllers.Keys);
    var s1 := Next(s, Launch(c));
    var s2 := Next(s1, Fork(c, q));
    t := Next(s2, Open(q, file));
    RunTwo(s, Launch(c), Fork(c, q));
    RunOne(s2, Open(q, file));
    RunAppend(s, [Launch(c), Fork(c, q)], s2, [Open(q, file)], t);
    actions := [Launch(c), Fork(c, q)] + [Open(q, file)];
  }

  // When the path is free, a new controller's child gets past check_pid whatever the
  // others are doing.
  lemma NewcomerGoesThrough(s: State, q: nat) returns (actions: seq<Action>, t: State, c: nat)
    requires s.path.None? && IsFree(s, q)
    requires forall f :: f in s.locks ==> f in s.files
    ensures Run(s, actions, t) && forall a :: a in actions ==> !a.Unlink?
    ensures t.children == s.children[q := Past] && t.locks.Keys <= s.locks.Keys
    ensures c !in s.controllers && t.controllers == s.controllers[c := Waiting(q)] && t.others == s.others
    ensures t.lasting == s.lasting
  {
    hide Names, Overwrite, Line, Run;
    var file := MaxPlusOne(s.files.Keys);
    var first, s1, second;
    first, s1, c := NewcomerOpens(s, q, file);
    EmptyNamesNobody(s1, file);
    second, t := ClaimGoesThrough(s1, q);
    RunAppend(s, first, s1, second, t);
    actions := first + second;
  }

  lemma EmptyNamesNobody(s: State, file: nat)
    requires file in s.files && s.files[file] == ""
    ensures !NamesRunning(s, file)
  {
  }

  // A child that can still claim a file nobody can find any more, while the path is free
  // for a newcomer: two services will run at once.
  lemma OrphanBreaksExclusion(s: State, p: nat, q: nat) returns (actions: seq<Action>, t: State)
    requires s.path.None? && CanClaim(s, p) && IsFree(s, q)
    requires forall f :: f in s.locks ==> f in s.files
    ensures Run(s, actions, t) && forall a :: a in actions ==> !a.Unlink?
    ensures p != q && Holder(t, p) && Holder(t, q)
  {
    hide Names, Overwrite, Line;
    var first, second, s2, d;
    first, s2 := ClaimGoesThrough(s, p);
    second, t, d := NewcomerGoesThrough(s2, q);
    RunAppend(s, first, s2, second, t);
    actions := first + second;
  }

  // A child that can be brought to claim, if those in its way die first.
  predicate CouldClaim(s: State, p: nat) {
    p in s.children && (s.children[p].Past? || (MayClaim(s.children[p]) && !WillRefuse(s, p, s.children[p])))
  }

  // From s to t nothing is lost for p, and a free pid stays free.
  ghost predicate Cleared(s: State, t: State, p: nat) {
    && Orderly(t) && p in s.children && p in t.children && t.children[p] == s.children[p]
    && t.children.Keys <= s.children.Keys && t.others <= s.others && t.lasting == s.lasting
    && t.files == s.files && t.path == s.path && t.locks.Keys <= s.locks.Keys
  }

  // Whoever holds the lock that p waits for dies.
  lemma ClearLock(s: State, p: nat) returns (actions: seq<Action>, t: State)
    requires Orderly(s) && CouldClaim(s, p)
    ensures Run(s, actions, t) && (forall a :: a in actions ==> !a.Unlink?) && Cleared(s, t, p)
    ensures s.children[p].Opened? ==> s.children[p].file !in t.locks
  {
    hide Names;
    if s.children[p].Opened? && s.children[p].file in s.locks {
      var r := s.locks[s.children[p].file];
      assert OwnsLock(s, s.children[p].file);
      actions, t := [Kill(r)], Next(s, Kill(r));
      StepKeepsOrderly(s, Kill(r));
      RunOne(s, Kill(r));
    } else {
      actions, t := [], s;
    }
  }

  // The foreign process x that the file may name ends.
  lemma ClearOther(s: State, p: nat, x: int) returns (actions: seq<Action>, t: State)
    requires Orderly(s) && p in s.children && !Lasts(s, x)
    ensures Run(s, actions, t) && (forall a :: a in actions ==> !a.Unlink?) && Cleared(s, t, p)
    ensures x !in t.others
  {
    if x in s.others {
      actions, t := [OtherEnds(x)], Next(s, OtherEnds(x));
      StepKeepsOrderly(s, OtherEnds(x));
      RunOne(s, OtherEnds(x));
    } else {
      actions, t := [], s;
    }
  }

  // Another child x dies,
  lemma KillChild(s: State, p: nat, x: nat) returns (actions: seq<Action>, t: State)
    requires Orderly(s) && p in s.children && x in s.children && x != p
    ensures Run(s, actions, t) && (forall a :: a in actions ==> !a.Unlink?) && Cleared(s, t, p)
    ensures x in t.children && t.children[x].Zombie? && t.others == s.others
  {
    hide Names, WaitedFor, Parents;
    if s.children[x].Zombie? {
      actions, t := [], s;
    } else {
      actions, t := [Kill(x)], Next(s, Kill(x));
      StepKeepsOrderly(s, Kill(x));
      RunOne(s, Kill(x));
    }
  }

  // and its controller collects it.
  lemma ReapChild(s: State, p: nat, x: nat) returns (a: Action, t: State)
    requires Orderly(s) && p in s.children && x in s.children && x != p && s.children[x].Zombie?
    ensures Enabled(s, a) && t == Next(s, a) && !a.Unlink? && Cleared(s, t, p)
    ensures x !in t.children && t.others == s.others
  {
    hide Names, Parents, OwnsLock;
    assert WaitedFor(s, x);
    var c :| c in s.controllers && s.controllers[c] == Waiting(x);
    a := Reap(c);
    t := Next(s, a);
    StepKeepsOrderly(s, a);
  }

  lemma ClearChild(s: State, p: nat, x: nat) returns (actions: seq<Action>, t: State)
    requires Orderly(s) && p in s.children && x in s.children && x != p
    ensures Run(s, actions, t) && (forall a :: a in actions ==> !a.Unlink?) && Cleared(s, t, p)
    ensures x !in t.children && t.others == s.others
  {
    hide Names, Run, Orderly, Enabled, Next;
    var first, s1 := KillChild(s, p, x);
    var a;
    a, t := ReapChild(s1, p, x);
    RunOne(s1, a);
    RunAppend(s, first, s1, [a], t);
    actions := first + [a];
  }

  // Whatever the file names is made to go away, unless it is p itself.
  lemma ClearName(s: State, p: nat) returns (actions: seq<Action>, t: State)
    requires Orderly(s) && CouldClaim(s, p)
    ensures Run(s, actions, t) && (forall a :: a in actions ==> !a.Unlink?) && Cleared(s, t, p)
    ensures s.children[p].Opened? || s.children[p].Locked? ==> !NamesRunning(t, s.children[p].file)
  {
    assert MayClaim(s.children[p]) ==> s.children[p].file in s.files;
    hide Names, Run, Orderly;
    actions, t := [], s;
    RunNothing(s);
    if s.children[p].Opened? || s.children[p].Locked? {
      var name := Names(s.files[FileOf(s, p)]);
      if name.Some? {
        var first, s1 := ClearOther(s, p, name.value);
        actions, t := first, s1;
        if name.value >= 0 && name.value in s1.children {
          var second;
          second, t := ClearChild(s1, p, name.value);
          RunAppend(s, first, s1, second, t);
          actions := first + second;
        }
      }
    }
  }

  lemma RunNothing(s: State)
    ensures Run(s, [], s)
  {
  }

  function FileOf(s: State, p: nat): (f: nat)
    requires p in s.children && (s.children[p].Opened? || s.children[p].Locked?)
  {
    s.children[p].file
  }

  lemma MakeWay(s: State, p: nat) returns (actions: seq<Action>, t: State)
    requires Orderly(s) && CouldClaim(s, p)
    ensures Run(s, actions, t) && (forall a :: a in actions ==> !a.Unlink?) && Cleared(s, t, p)
    ensures CanClaim(t, p)
  {
    hide Names, Run;
    var first, s1 := ClearLock(s, p);
    var second;
    second, t := ClearName(s1, p);
    RunAppend(s, first, s1, second, t);
    actions := first + second;
  }

  // Two services at once.
  ghost predicate Two(s: State) {
    exists p, q :: p != q && Holder(s, p) && Holder(s, q)
  }

  // No run without further unlinks ever leads to two services.
  ghost predicate NeverTwo(s: State) {
    forall actions: seq<Action>, t :: Run(s, actions, t) && (forall a :: a in actions ==> !a.Unlink?) ==> !Two(t)
  }

  lemma UnsafeUnlinkBreaksExclusion(s: State, c: nat, p: nat, q: nat) returns (actions: seq<Action>, t: State)
    requires Orderly(s) && Enabled(s, Unlink(c)) && CouldClaim(s, p) && IsFree(s, q)
    ensures Run(Next(s, Unlink(c)), actions, t) && forall a :: a in actions ==> !a.Unlink?
    ensures Two(t)
  {
    hide Names, Run;
    var s1 := Next(s, Unlink(c));
    StepKeepsOrderly(s, Unlink(c));
    var first, s2 := MakeWay(s1, p);
    var second;
    second, t := OrphanBreaksExclusion(s2, p, q);
    RunAppend(s1, first, s2, second, t);
    actions := first + second;
  }

  // An unlink leaves the door shut to a second service exactly when no child owns the
  // service and none inside check_pid can still claim the file. The controllers do not
  // look before they unlink.
  lemma UnlinkIsSafeIff(s: State, c: nat, q: nat)
    requires Inv(s) && Orderly(s) && Enabled(s, Unlink(c)) && IsFree(s, q)
    ensures SafeUnlink(s) <==> NeverTwo(Next(s, Unlink(c)))
  {
    hide Names, Run;
    var s1 := Next(s, Unlink(c));
    if SafeUnlink(s) {
      StepKeepsInv(s, Unlink(c));
      forall actions: seq<Action>, t | Run(s1, actions, t) && forall a :: a in actions ==> !a.Unlink?
        ensures !Two(t)
      {
        RunWithoutUnlinkIsSafe(s1, actions, t);
        SafeRunsAreExclusive(s1, actions, t);
      }
    } else {
      var p :| p in s.children && (MayClaim(s.children[p]) || s.children[p].Past?) && CouldClaim(s, p);
      var actions, t := UnsafeUnlinkBreaksExclusion(s, c, p, q);
      assert !NeverTwo(s1);
    }
  }

  lemma {:induction false} RunWithoutUnlinkIsSafe(s: State, actions: seq<Action>, t: State)
    requires Run(s, actions, t) && forall a :: a in actions ==> !a.Unlink?
    ensures SafeRun(s, actions, t)
    decreases |actions|
  {
    if actions != [] {
      assert actions[0] in actions;
      RunWithoutUnlinkIsSafe(Next(s, actions[0]), actions[1..], t);
    }
  }

  // The program as it is can get there from nothing: the first service ends and is waited
  // for, a second instance opens the file that names the dead one, and only then does the
  // first controller unlink it.
  lemma ViolationIsReachable() returns (s: State, actions: seq<Action>, t: State)
    ensures Init(s) && Run(s, actions, t) && Two(t)
  {
    hide Names, Overwrite, Line, Run, SafeRun, Inv, Orderly, Two, OwnsLock;
    s := State(map[], None, map[], map[], map[], {}, {});
    InitIsInv(s);
    var a1, s1, c := NewcomerGoesThrough(s, 1);
    RunWithoutUnlinkIsSafe(s, a1, s1);
    SafeRunsAreExclusive(s, a1, s1);
    assert Holder(s1, 1) && FileNames(s1, 1);
    var s2 := Next(s1, Exit(1, 0));
    var s3 := Next(s2, Reap(c));
    assert s3.children == map[];
    RunTwo(s1, Exit(1, 0), Reap(c));
    var a3, s4, d := NewcomerOpens(s3, 2, s3.path.value);
    assert CouldClaim(s4, 2);
    var a2 := [Exit(1, 0), Reap(c)] + a3;
    RunAppend(s1, [Exit(1, 0), Reap(c)], s3, a3, s4);
    RunAppend(s, a1, s1, a2, s4);
    RunsAreOrderly(s, a1 + a2, s4);
    var a4, s5 := [Unlink(c)], Next(s4, Unlink(c));
    RunOne(s4, Unlink(c));
    var a5;
    a5, t := UnsafeUnlinkBreaksExclusion(s4, c, 2, 3);
    RunAppend(s4, a4, s5, a5, t);
    RunAppend(s, a1 + a2, s4, a4 + a5, t);
    actions := a1 + a2 + (a4 + a5);
  }

  // ---- A file that shuts everybody out ----

  // A signal can be sent to x: kill never fails for it, it is a child, a zombie included, or
  // it lives outside the protocol.
  ghost predicate Lives(s: State, x: int) {
    x == 0 || x in s.lasting || x in s.others || (x >= 0 && x in s.children)
  }

  // The path leads to the file f, which names the living x, and nobody has slipped past it.
  ghost predicate ShutOut(s: State, f: nat, x: int) {
    && s.path == Some(f) && f in s.files && Names(s.files[f]) == Some(x) && Lives(s, x)
    && forall p :: p in s.children ==>
         && !s.children[p].Checked? && !s.children[p].Claimed? && !s.children[p].Past?
         && (MayClaim(s.children[p]) ==> s.children[p].file == f)
  }

  // Nothing in the run takes x away: it does not end, and whoever waits for it does not
  // collect it.
  ghost predicate Spared(s: State, x: int, actions: seq<Action>) {
    || x == 0 || x in s.lasting
    || (x in s.others && OtherEnds(x) !in actions)
    || (x >= 0 && x in s.children && forall c :: Reap(c) in actions ==> !WaitsFor(s, c, x))
  }

  predicate WaitsFor(s: State, c: nat, x: int) {
    c in s.controllers && s.controllers[c].Waiting? && s.controllers[c].child == x
  }

  lemma StepKeepsShutOut(s: State, a: Action, f: nat, x: int, actions: seq<Action>)
    requires ShutOut(s, f, x) && Enabled(s, a) && !a.Unlink?
    requires actions != [] && a == actions[0] && Spared(s, x, actions)
    ensures ShutOut(Next(s, a), f, x) && Spared(Next(s, a), x, actions[1..])
  {
    hide Names, Overwrite, Line;
    assert a in actions && forall b :: b in actions[1..] ==> b in actions;
    assert a.Check? ==> s.children[a.p].file == f;
  }

  // As long as the process lives that the file names, whether it belongs to the protocol or
  // not, no instance starts until somebody unlinks the file.
  lemma {:induction false} LivingNameShutsOut(s: State, f: nat, x: int, actions: seq<Action>, t: State)
    requires ShutOut(s, f, x) && Spared(s, x, actions)
    requires Run(s, actions, t) && forall a :: a in actions ==> !a.Unlink?
    ensures ShutOut(t, f, x) && forall p :: !Holder(t, p)
    decreases |actions|
  {
    hide Names, Spared;
    if actions != [] {
      assert actions[0] in actions;
      StepKeepsShutOut(s, actions[0], f, x, actions);
      LivingNameShutsOut(Next(s, actions[0]), f, x, actions[1..], t);
    }
  }

  // In particular the pid of a process outside the protocol.
  lemma StrangerShutsOut(s: State, f: nat, x: int, actions: seq<Action>, t: State)
    requires ShutOut(s, f, x) && x in s.others
    requires Run(s, actions, t) && forall a :: a in actions ==> !a.Unlink? && a != OtherEnds(x)
    ensures forall p :: !Holder(t, p)
  {
    hide Names, Run, ShutOut;
    LivingNameShutsOut(s, f, x, actions, t);
  }

  // A file that names what never ends, as every text does that reads as 0, keeps every
  // instance from starting until somebody unlinks it.
  lemma GarbageShutsOut(s: State, f: nat, x: int, actions: seq<Action>, t: State)
    requires ShutOut(s, f, x) && (x == 0 || x in s.lasting)
    requires Run(s, actions, t) && forall a :: a in actions ==> !a.Unlink?
    ensures ShutOut(t, f, x) && forall p :: !Holder(t, p)
  {
    hide Names, Run, ShutOut;
    LivingNameShutsOut(s, f, x, actions, t);
  }

  // Inside check_pid with the file open, about to return 122, or gone in one of the two
  // ways that are left.
  predicate TurnedAway(ph: Phase) {
    ph.Opened? || ph.Locked? || ph.Refusing? || ph == Zombie(Code(122)) || ph == Zombie(Killed)
  }

  // A child that has opened such a file ends with the exit code 122 unless it is killed.
  lemma {:induction false} OpenedThenRefused(s: State, f: nat, x: int, p: nat, actions: seq<Action>, t: State)
    requires ShutOut(s, f, x) && Spared(s, x, actions)
    requires Run(s, actions, t) && forall a :: a in actions ==> !a.Unlink?
    requires p in s.children ==> TurnedAway(s.children[p])
    requires forall c :: Fork(c, p) !in actions
    ensures p in t.children ==> TurnedAway(t.children[p])
    decreases |actions|
  {
    hide Names, Spared;
    if actions != [] {
      var a := actions[0];
      assert a in actions && forall c :: Fork(c, p) !in actions[1..];
      StepKeepsShutOut(s, a, f, x, actions);
      StepKeepsTurnedAway(s, a, f, x, p);
      OpenedThenRefused(Next(s, a), f, x, p, actions[1..], t);
    }
  }

  lemma StepKeepsTurnedAway(s: State, a: Action, f: nat, x: int, p: nat)
    requires ShutOut(s, f, x) && Enabled(s, a)
    requires p in s.children ==> TurnedAway(s.children[p])
    requires forall c :: a != Fork(c, p)
    ensures p in Next(s, a).children ==> TurnedAway(Next(s, a).children[p])
  {
    hide Names, Overwrite, Line;
    assert a.Check? ==> s.children[a.p].file == f;
  }

  // Some run without an unlink gives the service to somebody.
  ghost predicate CanStart(s: State) {
    exists actions: seq<Action>, t: State, p: nat ::
      Run(s, actions, t) && (forall a :: a in actions ==> !a.Unlink?) && Holder(t, p)
  }

  // The path leads to a file that names something for which kill never fails.
  predicate NamesLasting(s: State) {
    && s.path.Some? && s.path.value in s.files
    && Names(s.files[s.path.value]).Some? && Lasts(s, Names(s.files[s.path.value]).value)
  }

  // A free pid q that the file does not happen to name gets the service.
  lemma FirstInstanceStarts(s: State, q: nat) returns (actions: seq<Action>, t: State)
    requires Init(s) && IsFree(s, q) && !FileNames(s, q) && !NamesLasting(s)
    ensures Run(s, actions, t) && (forall a :: a in actions ==> !a.Unlink?) && Holder(t, q)
  {
    hide Names, Overwrite, Line, Run;
    InitIsInv(s);
    if s.path.None? {
      var c;
      actions, t, c := NewcomerGoesThrough(s, q);
    } else {
      var file := s.path.value;
      var first, s1, c := NewcomerOpens(s, q, file);
      RunsAreOrderly(s, first, s1);
      assert s1.children[q] == Opened(file) && !WillRefuse(s1, q, s1.children[q]);
      var second, s2 := MakeWay(s1, q);
      var third;
      third, t := ClaimGoesThrough(s2, q);
      RunAppend(s1, second, s2, third, t);
      RunAppend(s, first, s1, second + third, t);
      actions := first + (second + third);
    }
  }

  // With nobody running, a start can succeed exactly when the file at the path, if there is
  // one, does not name what never ends.
  lemma StartSucceedsIff(s: State, q: nat)
    requires Init(s) && IsFree(s, q) && !FileNames(s, q)
    ensures CanStart(s) <==> !NamesLasting(s)
  {
    hide Names, Run, IsFree;
    if NamesLasting(s) {
      var f := s.path.value;
      var x := Names(s.files[f]).value;
      assert ShutOut(s, f, x);
      forall actions: seq<Action>, t: State, p: nat | Run(s, actions, t) && forall a :: a in actions ==> !a.Unlink?
        ensures !Holder(t, p)
      {
        GarbageShutsOut(s, f, x, actions, t);
      }
    } else {
      var actions, t := FirstInstanceStarts(s, q);
      assert CanStart(s);
    }
  }

  // Which contents read as 0: all but the empty one that hold no digit where a number would
  // stand, or zeros alone.
  lemma ReadsAsZeroIff(content: string)
    ensures Names(content) == Some(0) <==>
      && content != ""
      && AllZeros(DigitRun(Unsigned(if |content| <= 80 then content else content[..80])))
  {
    AtoiZeroIff(Seen(content));
  }

  // A file that holds an x, and no process at all: nobody can start.
  lemma GarbageExample(q: nat) returns (s: State)
    requires 0 < q < PID_LIMIT
    ensures Init(s) && s.others == s.lasting == {} && IsFree(s, q) && !CanStart(s)
  {
    hide CanStart;
    s := State(map[0 := "x"], Some(0), map[], map[], map[], {}, {});
    ReadsAsZeroIff("x");
    assert Unsigned("x") == "x" && DigitRun("x") == "";
    StartSucceedsIff(s, q);
  }

  // What a claim leaves in the file: its line at the front, and behind it what the file had
  // there before.
  lemma ClaimOverwrites(s: State, p: nat)
    requires Enabled(s, Claim(p))
    ensures var f, line := s.children[p].file, Decimal(p) + "\n";
      var was, now := s.files[f], Next(s, Claim(p)).files[f];
      && |now| == (if |line| > |was| then |line| else |was|)
      && (forall i :: 0 <= i < |line| ==> now[i] == line[i])
      && (forall i :: |line| <= i < |was| ==> now[i] == was[i])
  {
  }

  // ---- A refused start ----

  // The controller's last child was refused, or has been killed on the way.
  predicate Refused(s: State, c: nat) {
    c in s.controllers &&
    match s.controllers[c]
    case Waiting(p) =>
      p in s.children && (s.children[p].Refusing? || s.children[p] == Zombie(Code(122)) || s.children[p] == Zombie(Killed))
    case Collected(status) => status == Code(122) || status == Killed
    case Decided(_) => false
    case _ => true
  }

  // From the moment a start is refused, its controller never removes the file, however
  // the run goes on, until it forks another child.
  lemma {:induction false} RefusedStartKeepsFile(s: State, actions: seq<Action>, t: State, c: nat)
    requires Parents(s) && Refused(s, c) && Run(s, actions, t)
    requires forall p :: Fork(c, p) !in actions
    ensures Unlink(c) !in actions
    decreases |actions|
  {
    if actions != [] {
      var a := actions[0];
      assert a in actions && forall p :: Fork(c, p) !in actions[1..];
      assert a != Unlink(c);
      StepKeepsParents(s, a);
      StepKeepsRefused(s, a, c);
      RefusedStartKeepsFile(Next(s, a), actions[1..], t, c);
    }
  }

  lemma StepKeepsRefused(s: State, a: Action, c: nat)
    requires Parents(s) && Refused(s, c) && Enabled(s, a)
    requires forall p :: a != Fork(c, p)
    ensures Refused(Next(s, a), c)
  {
    hide Names, Overwrite, Line;
  }

  // ---- What an exit code leads to ----

  // The child of controller c has ended with this status, and c has not gone on to fork.
  predicate EndedWith(s: State, c: nat, status: Status) {
    c in s.controllers &&
    match s.controllers[c]
    case Idle => false
    case Waiting(p) => p in s.children && s.children[p] == Zombie(status)
    case Collected(st) => st == status
    case Decided(code) => status == Code(code)
    case Done => true
  }

  lemma StepKeepsEnded(s: State, a: Action, c: nat, status: Status)
    requires Parents(s) && EndedWith(s, c, status) && Enabled(s, a)
    requires status != Code(123) && status != Killed
    ensures EndedWith(Next(s, a), c, status) && forall p :: a != Fork(c, p)
  {
    hide Names, Overwrite, Line;
  }

  // A controller whose child has exited with another code than 123 never forks again.
  lemma {:induction false} EndedForGood(s: State, c: nat, code: nat, actions: seq<Action>, t: State)
    requires Parents(s) && EndedWith(s, c, Code(code)) && code != 123 && Run(s, actions, t)
    ensures forall p :: Fork(c, p) !in actions
    decreases |actions|
  {
    if actions != [] {
      StepKeepsParents(s, actions[0]);
      StepKeepsEnded(s, actions[0], c, Code(code));
      EndedForGood(Next(s, actions[0]), c, code, actions[1..], t);
      assert actions == [actions[0]] + actions[1..];
    }
  }

  // The child of controller c asks for another one, and c has not forked it yet.
  predicate WillFork(s: State, c: nat) {
    c in s.controllers &&
    match s.controllers[c]
    case Idle => true
    case Waiting(p) => p in s.children && (s.children[p] == Zombie(Code(123)) || s.children[p] == Zombie(Killed))
    case Collected(st) => st == Code(123) || st == Killed
    case Decided(code) => code == 123
    case Done => false
  }

  lemma StepKeepsWillFork(s: State, a: Action, c: nat)
    requires Parents(s) && WillFork(s, c) && Enabled(s, a) && forall p :: a != Fork(c, p)
    ensures WillFork(Next(s, a), c)
  {
    hide Names, Overwrite, Line;
  }

  // After the exit code 123, or a signal, the controller is not done before it has forked
  // again.
  lemma {:induction false} ForksBeforeDone(s: State, c: nat, actions: seq<Action>, t: State)
    requires Parents(s) && WillFork(s, c) && Run(s, actions, t) && forall p :: Fork(c, p) !in actions
    ensures c in t.controllers && !t.controllers[c].Done?
    decreases |actions|
  {
    if actions != [] {
      var a := actions[0];
      assert a in actions && forall p :: Fork(c, p) !in actions[1..];
      StepKeepsParents(s, a);
      StepKeepsWillFork(s, a, c);
      ForksBeforeDone(Next(s, a), c, actions[1..], t);
    }
  }

  // The step at the head of a run that ends the child of controller c.
  ghost predicate Ends(s: State, c: nat, p: nat, a: Action) {
    WaitsFor(s, c, p) && Enabled(s, a) && (a.Exit? || a.Kill?) && a.p == p
  }

  // How the child ended decides for every continuation of the run: another child is forked
  // before the controller is done if it exited with 123 or was killed, and none otherwise.
  lemma EndDecides(s: State, c: nat, p: nat, a: Action, actions: seq<Action>, t: State)
    requires Parents(s) && Ends(s, c, p, a) && Run(s, [a] + actions, t)
    ensures a.Exit? && a.code != 123 ==> forall q :: Fork(c, q) !in actions
    ensures a.Kill? || a.code == 123 ==>
      (forall q :: Fork(c, q) !in actions) ==> c in t.controllers && !t.controllers[c].Done?
  {
    hide Names, Overwrite, Line;
    assert ([a] + actions)[1..] == actions;
    StepKeepsParents(s, a);
    var u := Next(s, a);
    if a.Exit? && a.code != 123 {
      EndedForGood(u, c, a.code, actions, t);
    } else if forall q :: Fork(c, q) !in actions {
      ForksBeforeDone(u, c, actions, t);
    }
  }

  // Collected with an exit code other than 122, a controller stays where it is until it has
  // removed the file.
  lemma {:induction false} UnlinksFirst(s: State, c: nat, code: nat, actions: seq<Action>, t: State)
    requires c in s.controllers && s.controllers[c] == Collected(Code(code)) && code != 122
    requires Run(s, actions, t) && Unlink(c) !in actions
    ensures c in t.controllers && t.controllers[c] == Collected(Code(code))
    decreases |actions|
  {
    hide Names, Overwrite, Line;
    if actions != [] {
      var a := actions[0];
      assert a in actions;
      UnlinksFirst(Next(s, a), c, code, actions[1..], t);
    }
  }
}

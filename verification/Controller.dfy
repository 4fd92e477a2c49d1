// run_controller() of jsvc-unix.c: fork a child, wait for it, and fork again if it asked for
// a reload or was killed, but not before a minute has passed.
module Controller {
  import Child
  import opened Prelude

  // How waitpid says the child ended.
  datatype Ended = Exited(code: int) | Signaled | Otherwise

  // One turn of the loop as the world plays it: whether fork succeeds, how the child ends,
  // and how long everything takes. sleep(60) may last longer than asked, never shorter.
  datatype Turn = Turn(forks: bool, ended: Ended,
                       beforeFork: real, afterFork: real, life: real, beforeCheck: real, oversleep: real)

  predicate Monotone(t: Turn) {
    t.beforeFork >= 0.0 && t.afterFork >= 0.0 && t.life >= 0.0 && t.beforeCheck >= 0.0 && t.oversleep >= 0.0
  }

  // time(NULL): whole seconds.
  function Time(clock: real): int {
    clock.Floor
  }

  predicate RunsAgain(e: Ended) {
    e == Exited(123) || e.Signaled?
  }

  // What is seen of a child: when it was forked, when it was waited for, and whether the
  // pid file was unlinked then.
  datatype Life = Life(start: real, end: real, unlinked: bool)

  // The clock when the loop is about to fork again, after a child forked at start.
  function ReadyAgain(t: Turn, start: real): real {
    var laststart := Time(start + t.afterFork);
    var now := start + t.afterFork + t.life + t.beforeCheck;
    if laststart + 60 > Time(now) then now + 60.0 + t.oversleep else now
  }

  ghost predicate LifeOf(t: Turn, keepPidFile: bool, ready: real, l: Life) {
    && t.forks
    && l.start == ready + t.beforeFork
    && l.end == l.start + t.afterFork + t.life
    && (l.unlinked <==> !keepPidFile && t.ended.Exited? && t.ended.code != 122)
  }

  // The children are those of the turns, one after the other; all but the last asked for
  // another one.
  ghost predicate Follows(turns: seq<Turn>, begin: real, keepPidFile: bool, lives: seq<Life>) {
    && |lives| <= |turns|
    && (forall i :: 0 <= i < |lives| ==> LifeOf(turns[i], keepPidFile, ForkReady(turns, begin, lives, i), lives[i]))
    && (forall i :: 0 <= i < |lives| - 1 ==> RunsAgain(turns[i].ended))
  }

  ghost function ForkReady(turns: seq<Turn>, begin: real, lives: seq<Life>, i: nat): real
    requires i <= |lives| <= |turns|
  {
    if i == 0 then begin else ReadyAgain(turns[i - 1], lives[i - 1].start)
  }

  lemma FollowsOneMore(turns: seq<Turn>, begin: real, keepPidFile: bool, lives: seq<Life>, l: Life)
    requires Follows(turns, begin, keepPidFile, lives) && |lives| < |turns|
    requires lives != [] ==> RunsAgain(turns[|lives| - 1].ended)
    requires LifeOf(turns[|lives|], keepPidFile, ForkReady(turns, begin, lives, |lives|), l)
    ensures Follows(turns, begin, keepPidFile, lives + [l])
  {
    var more := lives + [l];
    forall i | 0 <= i < |more|
      ensures LifeOf(turns[i], keepPidFile, ForkReady(turns, begin, more, i), more[i])
    {
      if i < |lives| {
        assert LifeOf(turns[i], keepPidFile, ForkReady(turns, begin, lives, i), lives[i]);
      }
    }
  }

  lemma FollowsMeans(turns: seq<Turn>, begin: real, keepPidFile: bool, lives: seq<Life>)
    requires Follows(turns, begin, keepPidFile, lives)
    ensures forall i :: 0 <= i < |lives| - 1 ==> turns[i].ended == Exited(123) || turns[i].ended == Signaled
    ensures forall i :: 0 <= i < |lives| ==>
      (lives[i].unlinked <==> !keepPidFile && turns[i].ended.Exited? && turns[i].ended.code != 122)
  {
    hide ForkReady, ReadyAgain;
    forall i | 0 <= i < |lives|
      ensures lives[i].unlinked <==> !keepPidFile && turns[i].ended.Exited? && turns[i].ended.code != 122
    {
      assert LifeOf(turns[i], keepPidFile, ForkReady(turns, begin, lives, i), lives[i]);
    }
  }

  // What the ways in which the children ended say about the run: every child but the last
  // exited with 123 or was killed; after such a last child the loop went on until a fork
  // failed or the turns were used up, and any other exit ended it with 0 for 0 and 1 for
  // the rest. The file is unlinked after every exit with another code than 122.
  ghost predicate Told(turns: seq<Turn>, keepPidFile: bool, ret: Option<int>, lives: seq<Life>) {
    var n := |lives|;
    && n <= |turns|
    && (forall i :: 0 <= i < n - 1 ==> turns[i].ended == Exited(123) || turns[i].ended == Signaled)
    && (forall i :: 0 <= i < n ==>
          (lives[i].unlinked <==> !keepPidFile && turns[i].ended.Exited? && turns[i].ended.code != 122))
    && (if n == 0 || turns[n - 1].ended == Exited(123) || turns[n - 1].ended == Signaled then
          if n == |turns| then ret == None else ret == Some(1) && !turns[n].forks
        else ret == Some(if turns[n - 1].ended == Exited(0) then 0 else 1))
  }

  // run_controller(). keepPidFile is true for the version and check commands. No result
  // means that the loop is still going when the turns are used up.
  method RunController(turns: seq<Turn>, begin: real, keepPidFile: bool) returns (ret: Option<int>, lives: seq<Life>)
    ensures Follows(turns, begin, keepPidFile, lives)
    ensures ret.None? ==> |lives| == |turns| && (lives != [] ==> RunsAgain(turns[|lives| - 1].ended))
    ensures ret == Some(0) ==> lives != [] && turns[|lives| - 1].ended == Exited(0)
    ensures ret.Some? && ret != Some(0) ==> ret == Some(1)
    ensures ret == Some(1) ==>
      if lives != [] && !RunsAgain(turns[|lives| - 1].ended) then turns[|lives| - 1].ended != Exited(0)
      else |lives| < |turns| && !turns[|lives|].forks
    ensures Told(turns, keepPidFile, ret, lives)
  {
    hide LifeOf, Follows, ReadyAgain;
    var clock := begin;
    lives := [];
    FollowsNothing(turns, begin, keepPidFile);
    while |lives| < |turns|
      invariant |lives| <= |turns| && Follows(turns, begin, keepPidFile, lives)
      invariant lives != [] ==> RunsAgain(turns[|lives| - 1].ended)
      invariant clock == ForkReady(turns, begin, lives, |lives|)
    {
      FollowsMeans(turns, begin, keepPidFile, lives);
      var turn := turns[|lives|];
      clock := clock + turn.beforeFork;
      if !turn.forks {
        return Some(1), lives;
      }
      var start := clock;
      clock := clock + turn.afterFork;
      var laststart := Time(clock);
      clock := clock + turn.life;
      var unlinked := turn.ended.Exited? && !keepPidFile && turn.ended.code != 122;
      var l := Life(start, clock, unlinked);
      Lived(turn, keepPidFile, ForkReady(turns, begin, lives, |lives|), l);
      FollowsOneMore(turns, begin, keepPidFile, lives, l);
      lives := lives + [l];
      FollowsMeans(turns, begin, keepPidFile, lives);
      ReadyIs(turn, start);
      match turn.ended {
        case Exited(code) =>
          if code == 123 {
            clock := clock + turn.beforeCheck;
            if laststart + 60 > Time(clock) {
              clock := clock + 60.0 + turn.oversleep;
            }
            continue;
          }
          if code == 0 {
            return Some(0), lives;
          }
          return Some(1), lives;
        case Signaled =>
          clock := clock + turn.beforeCheck;
          if laststart + 60 > Time(clock) {
            clock := clock + 60.0 + turn.oversleep;
          }
          continue;
        case Otherwise =>
          return Some(1), lives;
      }
    }
    FollowsMeans(turns, begin, keepPidFile, lives);
    return None, lives;
  }

  lemma FollowsNothing(turns: seq<Turn>, begin: real, keepPidFile: bool)
    ensures Follows(turns, begin, keepPidFile, [])
  {
  }

  lemma Lived(t: Turn, keepPidFile: bool, ready: real, l: Life)
    requires t.forks && l.start == ready + t.beforeFork && l.end == l.start + t.afterFork + t.life
    requires l.unlinked <==> !keepPidFile && t.ended.Exited? && t.ended.code != 122
    ensures LifeOf(t, keepPidFile, ready, l)
  {
  }

  lemma ReadyIs(t: Turn, start: real)
    ensures ReadyAgain(t, start) ==
      var now := start + t.afterFork + t.life + t.beforeCheck;
      if Time(start + t.afterFork) + 60 > Time(now) then now + 60.0 + t.oversleep else now
  {
  }

  // Successive children never overlap, and the clock second of each start is at least
  // sixty after that of the one before.
  ghost predicate Spaced(lives: seq<Life>) {
    && (forall i :: 0 <= i < |lives| ==> lives[i].start <= lives[i].end)
    && (forall i :: 0 < i < |lives| ==>
          && lives[i - 1].end <= lives[i].start
          && Time(lives[i].start) >= Time(lives[i - 1].start) + 60)
  }

  lemma TimeIsMonotone(x: real, y: real)
    requires x <= y
    ensures Time(x) <= Time(y)
    ensures Time(x + 60.0) == Time(x) + 60
  {
  }

  lemma ReadyIsLate(t: Turn, start: real)
    requires Monotone(t)
    ensures start + t.afterFork + t.life <= ReadyAgain(t, start)
    ensures Time(ReadyAgain(t, start)) >= Time(start) + 60
  {
    var now := start + t.afterFork + t.life + t.beforeCheck;
    TimeIsMonotone(start, start + t.afterFork);
    TimeIsMonotone(start, now);
    TimeIsMonotone(now + 60.0, now + 60.0 + t.oversleep);
    TimeIsMonotone(now, now);
  }

  // Every run of one controller is spaced, however its children end.
  lemma RunsAreSpaced(turns: seq<Turn>, begin: real, keepPidFile: bool, lives: seq<Life>)
    requires Follows(turns, begin, keepPidFile, lives)
    requires forall t :: t in turns ==> Monotone(t)
    ensures Spaced(lives)
  {
    hide ReadyAgain, Time;
    forall i | 0 <= i < |lives|
      ensures lives[i].start <= lives[i].end
    {
      assert turns[i] in turns;
      assert LifeOf(turns[i], keepPidFile, ForkReady(turns, begin, lives, i), lives[i]);
    }
    forall i | 0 < i < |lives|
      ensures lives[i - 1].end <= lives[i].start && Time(lives[i].start) >= Time(lives[i - 1].start) + 60
    {
      var t, l := turns[i - 1], lives[i - 1];
      assert t in turns && turns[i] in turns;
      assert LifeOf(t, keepPidFile, ForkReady(turns, begin, lives, i - 1), l);
      assert LifeOf(turns[i], keepPidFile, ReadyAgain(t, l.start), lives[i]);
      ReadyIsLate(t, l.start);
      TimeIsMonotone(ReadyAgain(t, l.start), lives[i].start);
    }
  }

  lemma {:induction false} SpacedApart(lives: seq<Life>, i: nat, j: nat)
    requires Spaced(lives) && i <= j < |lives|
    ensures Time(lives[j].start) - Time(lives[i].start) >= 60 * (j - i)
    decreases j - i
  {
    if i < j {
      SpacedApart(lives, i, j - 1);
    }
  }

  // Any window of T seconds sees at most T / 60 + 1 starts.
  lemma WindowBound(lives: seq<Life>, i: nat, j: nat, from: int, seconds: nat)
    requires Spaced(lives) && i <= j < |lives|
    requires from <= Time(lives[i].start) && Time(lives[j].start) <= from + seconds
    ensures j - i + 1 <= seconds / 60 + 1
  {
    SpacedApart(lives, i, j);
  }

  lemma FloorApart(x: real, y: real)
    requires y.Floor >= x.Floor + 60
    ensures y - x > 59.0
  {
  }

  // In real time the starts are more than 59 seconds apart.
  lemma MoreThan59Seconds(lives: seq<Life>, i: nat)
    requires Spaced(lives) && 0 < i < |lives|
    ensures lives[i].start - lives[i - 1].start > 59.0
  {
    FloorApart(lives[i - 1].start, lives[i].start);
  }

  // Sixty seconds in real time hold for every course of a child's life exactly when a new
  // clock second has begun, or just begins, between the fork and the reading of the clock.
  ghost predicate SecondTurned(start: real, afterFork: real) {
    Time(start + afterFork) as real >= start
  }

  lemma SixtySecondsIff(start: real, afterFork: real)
    requires afterFork >= 0.0
    ensures SecondTurned(start, afterFork) <==>
      forall t :: Monotone(t) && t.afterFork == afterFork ==> ReadyAgain(t, start) - start >= 60.0
  {
    if SecondTurned(start, afterFork) {
      forall t | Monotone(t) && t.afterFork == afterFork
        ensures ReadyAgain(t, start) - start >= 60.0
      {
        TurnedSecondHolds(t, start);
      }
    } else {
      var t := ShortTurn(start, afterFork);
      assert ReadyAgain(t, start) - start < 60.0;
    }
  }

  lemma TurnedSecondHolds(t: Turn, start: real)
    requires Monotone(t) && SecondTurned(start, t.afterFork)
    ensures ReadyAgain(t, start) - start >= 60.0
  {
  }

  // Otherwise a child that lives just until the sixtieth second is followed too soon.
  lemma ShortTurn(start: real, afterFork: real) returns (t: Turn)
    requires afterFork >= 0.0 && !SecondTurned(start, afterFork)
    ensures Monotone(t) && t.forks && t.afterFork == afterFork && t.beforeFork == 0.0 && t.ended == Exited(123)
    ensures ReadyAgain(t, start) - start < 60.0
  {
    var laststart := Time(start + afterFork);
    var life := (laststart + 60) as real - (start + afterFork);
    t := Turn(true, Exited(123), 0.0, afterFork, life, 0.0, 0.0);
    assert start + afterFork + life + 0.0 == (laststart + 60) as real;
    assert Time((laststart + 60) as real) == laststart + 60;
  }

  lemma NextIsLate(turns: seq<Turn>, begin: real, keepPidFile: bool, lives: seq<Life>, i: nat)
    requires Follows(turns, begin, keepPidFile, lives) && (forall t :: t in turns ==> Monotone(t))
    requires i + 1 < |lives| && SecondTurned(lives[i].start, turns[i].afterFork)
    ensures lives[i + 1].start - lives[i].start >= 60.0
  {
    hide ReadyAgain, SecondTurned;
    assert turns[i] in turns && turns[i + 1] in turns;
    TurnedSecondHolds(turns[i], lives[i].start);
    assert LifeOf(turns[i + 1], keepPidFile, ForkReady(turns, begin, lives, i + 1), lives[i + 1]);
  }

  // The same of whole runs: a child forked at start is followed at least sixty seconds later
  // in every run exactly when its second had turned.
  lemma RunsSixtyApartIff(start: real, afterFork: real)
    requires afterFork >= 0.0
    ensures SecondTurned(start, afterFork) <==>
      forall turns: seq<Turn>, begin: real, keepPidFile: bool, lives: seq<Life>, i: nat ::
        && Follows(turns, begin, keepPidFile, lives) && (forall t :: t in turns ==> Monotone(t))
        && i + 1 < |lives| && lives[i].start == start && turns[i].afterFork == afterFork
        ==> lives[i + 1].start - start >= 60.0
  {
    hide ReadyAgain, SecondTurned;
    if SecondTurned(start, afterFork) {
      forall turns: seq<Turn>, begin: real, keepPidFile: bool, lives: seq<Life>, i: nat |
        && Follows(turns, begin, keepPidFile, lives) && (forall t :: t in turns ==> Monotone(t))
        && i + 1 < |lives| && lives[i].start == start && turns[i].afterFork == afterFork
        ensures lives[i + 1].start - start >= 60.0
      {
        NextIsLate(turns, begin, keepPidFile, lives, i);
      }
    } else {
      var turns, lives := ShortRun(start, afterFork);
      assert Follows(turns, start, false, lives) && 0 + 1 < |lives|;
    }
  }

  lemma ShortRun(start: real, afterFork: real) returns (turns: seq<Turn>, lives: seq<Life>)
    requires afterFork >= 0.0 && !SecondTurned(start, afterFork)
    ensures Follows(turns, start, false, lives) && forall t :: t in turns ==> Monotone(t)
    ensures |lives| == 2 && lives[0].start == start && turns[0].afterFork == afterFork
    ensures lives[1].start - start < 60.0
  {
    hide ReadyAgain, SecondTurned;
    var first := ShortTurn(start, afterFork);
    var second := Turn(true, Exited(0), 0.0, 0.0, 0.0, 0.0, 0.0);
    turns := [first, second];
    var again := ReadyAgain(first, start);
    lives := [Life(start, start + afterFork + first.life, true), Life(again, again, true)];
    assert ForkReady(turns, start, lives, 1) == again;
  }

  // So real-time windows are bounded like clock windows as long as every second turns in time.
  lemma {:induction false} RealWindowBound(turns: seq<Turn>, begin: real, keepPidFile: bool, lives: seq<Life>, i: nat, j: nat)
    requires Follows(turns, begin, keepPidFile, lives) && (forall t :: t in turns ==> Monotone(t))
    requires i <= j < |lives| && forall k :: i <= k < j ==> SecondTurned(lives[k].start, turns[k].afterFork)
    ensures lives[j].start - lives[i].start >= 60.0 * (j - i) as real
    decreases j - i
  {
    hide Follows, SecondTurned;
    if i < j {
      RealWindowBound(turns, begin, keepPidFile, lives, i, j - 1);
      NextIsLate(turns, begin, keepPidFile, lives, j - 1);
    }
  }

  // But not always sixty: the comparison is made in whole seconds. A child forked at
  // 0.9 that ends at 60.0 is followed at once by the next.
  method LessThan60Witness() returns (ret: Option<int>, lives: seq<Life>)
    ensures |lives| == 2 && lives[1].start - lives[0].start < 60.0
  {
    var first := Turn(true, Exited(123), 0.0, 0.0, 59.1, 0.0, 0.0);
    var second := Turn(true, Exited(0), 0.0, 0.0, 1.0, 0.0, 0.0);
    var turns := [first, second];
    ret, lives := RunController(turns, 0.9, false);
    assert |lives| > 0 ==> LifeOf(turns[0], false, ForkReady(turns, 0.9, lives, 0), lives[0]);
    assert |lives| > 1 ==> LifeOf(turns[1], false, ForkReady(turns, 0.9, lives, 1), lives[1]);
  }

  // Nobody waits longer than that: after a child that was forked at least sixty clock
  // seconds ago the next is forked at once, and otherwise after one sleep.
  lemma RestartIsPrompt(turns: seq<Turn>, begin: real, keepPidFile: bool, lives: seq<Life>, i: nat)
    requires Follows(turns, begin, keepPidFile, lives) && i + 1 < |lives|
    ensures var t, checked := turns[i], lives[i].end + turns[i].beforeCheck;
      var wait := lives[i + 1].start - turns[i + 1].beforeFork - checked;
      if checked.Floor >= (lives[i].start + t.afterFork).Floor + 60 then wait == 0.0 else wait == 60.0 + t.oversleep
  {
    assert LifeOf(turns[i], keepPidFile, ForkReady(turns, begin, lives, i), lives[i]);
    assert LifeOf(turns[i + 1], keepPidFile, ForkReady(turns, begin, lives, i + 1), lives[i + 1]);
  }

  // A child that check_pid refuses exits with 122: its controller gives up, and keeps the
  // file of the instance that is running.
  method RefusedChild(args: Child.Args, w: Child.World, turn: Turn, begin: real)
    returns (ret: Option<int>, lives: seq<Life>)
    requires !args.vers && !args.chck && w.checkPid == 122 && turn.forks
    ensures ret == Some(1) && |lives| == 1 && !lives[0].unlinked
  {
    var process := new Child.Process();
    var code := process.Child(args, w, [], []);
    ret, lives := RunController([turn.(ended := Exited(code.value))], begin, false);
  }
}

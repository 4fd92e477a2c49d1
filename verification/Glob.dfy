// The wildcard matcher apxStrMatch of utils.c. It reads the string from a memory in which
// anything may follow the terminator, and it has a third verdict, abort, that stops the
// search for a later match.
module Glob {
  import opened Prelude

  const MATCH := 0
  const NO_MATCH := 1
  const ABORT := -1

  // The memory beyond the modelled part reads as zero.
  function At(m: string, i: nat): char {
    if i < |m| then m[i] else NUL
  }

  // The C string at address b.
  function Str(m: string, b: nat): (s: string)
    ensures IsCString(s)
    decreases |m| - b
  {
    if At(m, b) == NUL then "" else [m[b]] + Str(m, b + 1)
  }

  // Two characters are compared after folding; the identity is the case-sensitive mode.
  // Folding never makes a character look like the terminator.
  ghost predicate IsFold(fold: char -> char) {
    forall c :: fold(c) == fold(NUL) ==> c == NUL
  }

  // What a pattern means.
  ghost predicate Matches(s: string, p: string, fold: char -> char)
    decreases |p|
  {
    if p == "" then s == ""
    else if p[0] == '*' then exists k :: 0 <= k <= |s| && Matches(s[k..], p[1..], fold)
    else s != "" && (p[0] == '?' || fold(s[0]) == fold(p[0])) && Matches(s[1..], p[1..], fold)
  }

  ghost predicate MatchesSomeSuffix(s: string, p: string, fold: char -> char) {
    exists k :: 0 <= k <= |s| && Matches(s[k..], p, fold)
  }

  function DropStars(p: string): (q: string)
    ensures |q| <= |p| && (q != "" ==> q[0] != '*')
    ensures p != "" && p[0] == '*' ==> |q| < |p|
  {
    if p != "" && p[0] == '*' then DropStars(p[1..]) else p
  }

  // The verdict of the code on the string at address b.
  function Verdict(m: string, b: nat, p: string, fold: char -> char): (rc: int)
    ensures rc == MATCH || rc == NO_MATCH || rc == ABORT
    decreases |p|, 0, 0
  {
    if p == "" then (if At(m, b) != NUL then NO_MATCH else MATCH)
    else if p[0] == '*' then
      var q := DropStars(p);
      if q == "" then MATCH else Scan(m, b, q, fold)
    else if p[0] != '?' && fold(At(m, b)) != fold(p[0]) then NO_MATCH
    else Verdict(m, b + 1, p[1..], fold)
  }

  // The attempts made for the rest of the pattern after a star.
  function Scan(m: string, b: nat, q: string, fold: char -> char): (rc: int)
    ensures rc == MATCH || rc == ABORT
    decreases |q|, 1, |m| - b
  {
    if At(m, b) == NUL then ABORT
    else
      var rc := Verdict(m, b, q, fold);
      if rc != NO_MATCH then rc else Scan(m, b + 1, q, fold)
  }

  // apxStrMatchA/W. The guard at the head of the loop reads the pattern, not the string,
  // at index x; as x equals y there, it never fires.
  method StrMatch(m: string, b: nat, p: string, fold: char -> char) returns (rc: int)
    requires IsCString(p)
    ensures rc == Verdict(m, b, p, fold)
    decreases |p|
  {
    hide Matches, Str;
    var x, y: nat := 0, 0;
    while y < |p|
      invariant x == y <= |p|
      invariant Verdict(m, b, p, fold) == Verdict(m, b + x, p[y..], fold)
    {
      assert At(p, x) != NUL;
      if p[y] == '*' {
        ghost var y0 := y;
        y := y + 1;
        while At(p, y) == '*'
          invariant y0 < y <= |p| && DropStars(p[y0..]) == DropStars(p[y..])
          decreases |p| - y
        {
          y := y + 1;
        }
        assert DropStars(p[y0..]) == p[y..];
        if At(p, y) == NUL {
          return MATCH;
        }
        while At(m, b + x) != NUL
          invariant x >= y0 && Verdict(m, b, p, fold) == Scan(m, b + x, p[y..], fold)
          decreases |m| - (b + x)
        {
          rc := StrMatch(m, b + x, p[y..], fold);
          x := x + 1;
          if rc != NO_MATCH {
            return rc;
          }
        }
        return ABORT;
      } else if p[y] != '?' {
        if fold(At(m, b + x)) != fold(p[y]) {
          return NO_MATCH;
        }
      }
      assert p[y..][1..] == p[y + 1..];
      x, y := x + 1, y + 1;
    }
    return if At(m, b + x) != NUL then NO_MATCH else MATCH;
  }

  // Whether every '?' comes right after a star, where the string is known not to have
  // ended. The flag says that about the start of p itself.
  predicate Guarded(p: string, nonEmpty: bool) {
    p == "" ||
    if p[0] == '*' then Guarded(p[1..], true)
    else (p[0] == '?' ==> nonEmpty) && Guarded(p[1..], false)
  }

  lemma {:induction false} GuardedAfterStars(p: string)
    requires Guarded(p, true)
    ensures Guarded(DropStars(p), true)
    decreases |p|
  {
    if p != "" && p[0] == '*' {
      GuardedAfterStars(p[1..]);
    }
  }

  lemma {:induction false} DropStarsCString(p: string)
    requires IsCString(p)
    ensures IsCString(DropStars(p))
    decreases |p|
  {
    if p != "" && p[0] == '*' {
      DropStarsCString(p[1..]);
    }
  }

  // Consecutive stars mean one star.
  lemma {:induction false} StarsMatch(s: string, p: string, fold: char -> char)
    requires p != "" && p[0] == '*'
    ensures Matches(s, p, fold) <==> MatchesSomeSuffix(s, DropStars(p), fold)
    decreases |p|
  {
    var rest := p[1..];
    if rest != "" && rest[0] == '*' {
      if Matches(s, p, fold) {
        var k :| 0 <= k <= |s| && Matches(s[k..], rest, fold);
        StarsMatch(s[k..], rest, fold);
        var j :| 0 <= j <= |s[k..]| && Matches(s[k..][j..], DropStars(rest), fold);
        assert s[k..][j..] == s[k + j..];
      }
      if MatchesSomeSuffix(s, DropStars(p), fold) {
        StarsMatch(s, rest, fold);
        assert s[0..] == s && Matches(s[0..], rest, fold);
      }
    }
  }

  lemma StarsMatchSomeSuffix(s: string, p: string, fold: char -> char)
    requires p != "" && p[0] == '*'
    ensures MatchesSomeSuffix(s, p, fold) <==> MatchesSomeSuffix(s, DropStars(p), fold)
  {
    var q := DropStars(p);
    StarsMatch(s, p, fold);
    if MatchesSomeSuffix(s, p, fold) {
      var k :| 0 <= k <= |s| && Matches(s[k..], p, fold);
      StarsMatch(s[k..], p, fold);
      var j :| 0 <= j <= |s[k..]| && Matches(s[k..][j..], q, fold);
      assert s[k..][j..] == s[k + j..];
    }
    if MatchesSomeSuffix(s, q, fold) {
      assert s[0..] == s && Matches(s[0..], p, fold);
    }
  }

  // The verdict is right for guarded patterns, and abort promises that no later start
  // could match either, so that giving up the search loses nothing.
  lemma {:induction false} VerdictIsRight(m: string, b: nat, p: string, fold: char -> char)
    requires IsFold(fold) && IsCString(p) && Guarded(p, At(m, b) != NUL)
    ensures Verdict(m, b, p, fold) == MATCH <==> Matches(Str(m, b), p, fold)
    ensures Verdict(m, b, p, fold) == ABORT ==> !MatchesSomeSuffix(Str(m, b), p, fold)
    decreases |p|, 0, 0
  {
    var s := Str(m, b);
    if p == "" {
    } else if p[0] == '*' {
      var q := DropStars(p);
      StarsMatch(s, p, fold);
      if q == "" {
        assert Matches(s[|s|..], q, fold);
      } else {
        GuardedAfterStars(p[1..]);
        DropStarsCString(p);
        ScanIsRight(m, b, q, fold);
        StarsMatchSomeSuffix(s, p, fold);
      }
    } else if p[0] != '?' && fold(At(m, b)) != fold(p[0]) {
    } else {
      assert At(m, b) != NUL;
      VerdictIsRight(m, b + 1, p[1..], fold);
      assert s[1..] == Str(m, b + 1);
      if MatchesSomeSuffix(s, p, fold) {
        var k :| 0 <= k <= |s| && Matches(s[k..], p, fold);
        assert s[k..][1..] == s[1..][k..];
        assert Matches(s[1..][k..], p[1..], fold);
      }
    }
  }

  lemma {:induction false} ScanIsRight(m: string, b: nat, q: string, fold: char -> char)
    requires IsFold(fold) && IsCString(q) && q != "" && q[0] != '*' && Guarded(q, true)
    ensures Scan(m, b, q, fold) == MATCH <==> MatchesSomeSuffix(Str(m, b), q, fold)
    decreases |q|, 1, |m| - b
  {
    var s := Str(m, b);
    if At(m, b) != NUL {
      VerdictIsRight(m, b, q, fold);
      ScanIsRight(m, b + 1, q, fold);
      assert s[1..] == Str(m, b + 1);
      assert s[0..] == s;
      if Matches(s, q, fold) {
        assert Matches(s[0..], q, fold);
      }
      if MatchesSomeSuffix(s[1..], q, fold) {
        var k :| 0 <= k <= |s[1..]| && Matches(s[1..][k..], q, fold);
        assert s[1..][k..] == s[k + 1..];
      }
      if MatchesSomeSuffix(s, q, fold) {
        var k :| 0 <= k <= |s| && Matches(s[k..], q, fold);
        if k > 0 {
          assert s[k..] == s[1..][k - 1..];
          assert MatchesSomeSuffix(s[1..], q, fold);
        }
      }
    }
  }

  // A memory on which an unguarded pattern goes wrong: its own characters, with a
  // terminator wherever an unguarded '?' will read.
  function Bait(p: string, nonEmpty: bool): string {
    if p == "" then ""
    else if p[0] == '*' then Bait(p[1..], true)
    else [if p[0] != '?' then p[0] else if nonEmpty then 'x' else NUL] + Bait(p[1..], false)
  }

  // The pattern can be laid over the memory one character a place, stars taking nothing.
  ghost predicate Aligned(m: string, b: nat, p: string, nonEmpty: bool)
    decreases |p|
  {
    if p == "" then At(m, b) == NUL
    else if p[0] == '*' then Aligned(m, b, p[1..], true)
    else
      && (p[0] == '?' && nonEmpty ==> At(m, b) != NUL)
      && (p[0] != '?' ==> At(m, b) == p[0])
      && Aligned(m, b + 1, p[1..], false)
  }

  lemma {:induction false} BaitIsAligned(a: string, p: string, nonEmpty: bool)
    ensures Aligned(a + Bait(p, nonEmpty), |a|, p, nonEmpty)
    decreases |p|
  {
    if p != "" {
      if p[0] == '*' {
        BaitIsAligned(a, p[1..], true);
      } else {
        var c := Bait(p, nonEmpty)[0];
        BaitIsAligned(a + [c], p[1..], false);
        assert a + [c] + Bait(p[1..], false) == a + Bait(p, nonEmpty);
      }
    }
  }

  lemma {:induction false} AlignedAfterStars(m: string, b: nat, p: string)
    requires Aligned(m, b, p, true)
    ensures Aligned(m, b, DropStars(p), true)
    decreases |p|
  {
    if p != "" && p[0] == '*' {
      AlignedAfterStars(m, b, p[1..]);
    }
  }

  // The code accepts every aligned memory at the first attempt of each star.
  lemma {:induction false} AlignedIsAccepted(m: string, b: nat, p: string, nonEmpty: bool, fold: char -> char)
    requires IsCString(p) && Aligned(m, b, p, nonEmpty)
    ensures Verdict(m, b, p, fold) == MATCH
    decreases |p|
  {
    if p != "" {
      if p[0] == '*' {
        var q := DropStars(p);
        AlignedAfterStars(m, b, p[1..]);
        if q != "" {
          DropStarsCString(p);
          AlignedIsAccepted(m, b, q, true, fold);
        }
      } else {
        AlignedIsAccepted(m, b + 1, p[1..], false, fold);
      }
    }
  }

  lemma {:induction false} BaitHoldsTerminator(p: string, nonEmpty: bool)
    requires !Guarded(p, nonEmpty)
    ensures NUL in Bait(p, nonEmpty)
    decreases |p|
  {
    if p[0] == '*' {
      BaitHoldsTerminator(p[1..], true);
    } else if p[0] == '?' && !nonEmpty {
      assert Bait(p, nonEmpty)[0] == NUL;
    } else {
      BaitHoldsTerminator(p[1..], false);
    }
  }

  lemma {:induction false} StrIsShort(m: string, b: nat)
    requires b <= |m| && NUL in m[b..]
    ensures |Str(m, b)| < |m| - b
    decreases |m| - b
  {
    if At(m, b) != NUL {
      assert m[b..] == [m[b]] + m[b + 1..];
      StrIsShort(m, b + 1);
    }
  }

  // A match needs a character of the string for every character that is not a star.
  lemma {:induction false} MatchNeedsRoom(s: string, p: string, nonEmpty: bool, fold: char -> char)
    requires Matches(s, p, fold)
    ensures |s| >= |Bait(p, nonEmpty)|
    decreases |p|
  {
    if p != "" {
      if p[0] == '*' {
        var k :| 0 <= k <= |s| && Matches(s[k..], p[1..], fold);
        MatchNeedsRoom(s[k..], p[1..], true, fold);
      } else {
        MatchNeedsRoom(s[1..], p[1..], false, fold);
      }
    }
  }

  // The code decides a pattern rightly in every memory exactly when each '?' of the
  // pattern stands right after a star.
  lemma RightIffGuarded(p: string, fold: char -> char)
    requires IsFold(fold) && IsCString(p)
    ensures (forall m :: Verdict(m, 0, p, fold) == MATCH <==> Matches(Str(m, 0), p, fold)) <==> Guarded(p, false)
  {
    if Guarded(p, false) {
      forall m
        ensures Verdict(m, 0, p, fold) == MATCH <==> Matches(Str(m, 0), p, fold)
      {
        GuardedMore(p);
        VerdictIsRight(m, 0, p, fold);
      }
    } else {
      var m := Bait(p, false);
      BaitIsAligned("", p, false);
      assert "" + m == m;
      AlignedIsAccepted(m, 0, p, false, fold);
      BaitHoldsTerminator(p, false);
      assert m[0..] == m;
      StrIsShort(m, 0);
      if Matches(Str(m, 0), p, fold) {
        MatchNeedsRoom(Str(m, 0), p, false, fold);
      }
      assert Verdict(m, 0, p, fold) == MATCH && !Matches(Str(m, 0), p, fold);
    }
  }

  lemma GuardedMore(p: string)
    requires Guarded(p, false)
    ensures Guarded(p, true)
  {
  }

  // For instance "?" accepts the empty string when a zero follows its terminator.
  lemma QuestionAcceptsEmpty(fold: char -> char)
    ensures Verdict([NUL, NUL], 0, "?", fold) == MATCH && Str([NUL, NUL], 0) == ""
    ensures !Matches("", "?", fold)
  {
    assert Verdict([NUL, NUL], 1, "", fold) == MATCH;
  }

  // Character i of the pattern text f does not fit the memory.
  ghost predicate Clashes(m: string, b: nat, f: string, fold: char -> char, i: nat) {
    i < |f| && f[i] != '?' && fold(At(m, b + i)) != fold(f[i])
  }

  // When the verdict is an abort and when a plain failure: without a star it is never an
  // abort; with one it is a plain failure exactly if a character in front of the first star
  // does not fit, and an abort if no place is found for what follows.
  lemma {:induction false} FailsBeforeStar(m: string, b: nat, f: string, rest: string, fold: char -> char)
    requires '*' !in f
    ensures Verdict(m, b, f, fold) != ABORT
    ensures Verdict(m, b, f + "*" + rest, fold) == NO_MATCH <==> exists i: nat :: Clashes(m, b, f, fold, i)
    decreases |f|
  {
    var p := f + "*" + rest;
    if f == "" {
      assert p[0] == '*';
    } else {
      var tail, next := f[1..], b + 1;
      assert f[0] in f && p[0] == f[0] && p[1..] == tail + "*" + rest;
      FailsBeforeStar(m, b + 1, tail, rest, fold);
      if i: nat :| Clashes(m, b, f, fold, i) {
        assert i > 0 ==> Clashes(m, b + 1, tail, fold, i - 1);
      }
      if i: nat :| Clashes(m, next, tail, fold, i) {
        assert Clashes(m, b, f, fold, i + 1);
      }
      if f[0] != '?' && fold(At(m, b)) != fold(f[0]) {
        assert Clashes(m, b, f, fold, 0);
      }
    }
  }
}

// What "replace every occurrence" means, on values: the leftmost occurrences that do
// not overlap cut the text into gaps, and the gaps are joined again by the new text.
module ReplaceText {
  import opened Prelude

  predicate IsAt(s: string, i: nat, m: string) {
    i + |m| <= |s| && s[i..i + |m|] == m
  }

  // strstr: the first occurrence.
  function Find(s: string, m: string): (r: Option<nat>)
    requires m != []
    ensures r.Some? ==> IsAt(s, r.value, m) && forall j: nat :: j < r.value ==> !IsAt(s, j, m)
    ensures r.None? ==> forall j: nat :: !IsAt(s, j, m)
  {
    if IsAt(s, 0, m) then Some(0)
    else if s == [] then None
    else
      var r := Find(s[1..], m);
      ShiftOne(s, m);
      if r.None? then None else Some(r.value + 1)
  }

  lemma ShiftOne(s: string, m: string)
    requires s != []
    ensures forall j: nat {:trigger IsAt(s[1..], j, m)} :: IsAt(s[1..], j, m) <==> IsAt(s, j + 1, m)
    ensures forall j: nat {:trigger IsAt(s, j, m)} :: j > 0 ==> (IsAt(s, j, m) <==> IsAt(s[1..], j - 1, m))
  {
    forall j: nat
      ensures IsAt(s[1..], j, m) <==> IsAt(s, j + 1, m)
    {
      if j + 1 + |m| <= |s| {
        assert s[1..][j..j + |m|] == s[j + 1..j + 1 + |m|];
      }
    }
  }

  // The text between successive matches; one gap more than there are matches.
  function Split(s: string, m: string): (gaps: seq<string>)
    requires m != []
    ensures |gaps| >= 1
  {
    match Find(s, m)
    case None => [s]
    case Some(i) => [s[..i]] + Split(s[i + |m|..], m)
  }

  function Join(gaps: seq<string>, sep: string): string
    requires |gaps| >= 1
  {
    if |gaps| == 1 then gaps[0] else gaps[0] + sep + Join(gaps[1..], sep)
  }

  function Count(s: string, m: string): nat
    requires m != []
  {
    |Split(s, m)| - 1
  }

  function ReplaceAll(s: string, m: string, r: string): string
    requires m != []
  {
    Join(Split(s, m), r)
  }

  // No occurrence of m starts inside a gap, not even one that runs into the match that
  // closes the gap.
  ghost predicate Clean(gap: string, m: string) {
    forall j: nat :: j < |gap| ==> !IsAt(gap + m, j, m)
  }

  // Every gap that a match closes is clean, and no match at all is left in the last gap.
  ghost predicate Leftmost(gaps: seq<string>, m: string)
    requires |gaps| >= 1
  {
    if |gaps| == 1 then forall j: nat :: !IsAt(gaps[0], j, m)
    else Clean(gaps[0], m) && Leftmost(gaps[1..], m)
  }

  // A gap followed by a match and anything else is searched as if it ended there.
  lemma FindAfterGap(gap: string, m: string, rest: string)
    requires m != []
    requires Clean(gap, m)
    ensures Find(gap + m + rest, m) == Some(|gap|)
  {
    var s := gap + m + rest;
    assert s[|gap|..|gap| + |m|] == m;
    assert IsAt(s, |gap|, m);
    forall j: nat | j < |gap|
      ensures !IsAt(s, j, m)
    {
      assert s[j..j + |m|] == (gap + m)[j..j + |m|];
      assert !IsAt(gap + m, j, m);
    }
  }

  // Split undoes Join with the matched text, and its gaps are the leftmost ones.
  lemma {:induction false} SplitIsLeftmost(s: string, m: string)
    requires m != []
    ensures Join(Split(s, m), m) == s
    ensures Leftmost(Split(s, m), m)
    decreases |s|
  {
    match Find(s, m)
    case None =>
    case Some(i) =>
      var rest := s[i + |m|..];
      SplitIsLeftmost(rest, m);
      assert Split(s, m)[1..] == Split(rest, m);
      assert s == s[..i] + m + rest;
      forall j: nat | j < i
        ensures !IsAt(s[..i] + m, j, m)
      {
        assert !IsAt(s, j, m);
        assert (s[..i] + m)[j..j + |m|] == s[j..j + |m|];
      }
      assert Clean(s[..i], m);
  }

  // There is only one leftmost way to cut a text, so the two laws determine Split.
  lemma {:induction false} LeftmostIsUnique(gaps: seq<string>, s: string, m: string)
    requires m != [] && |gaps| >= 1
    requires Join(gaps, m) == s && Leftmost(gaps, m)
    ensures gaps == Split(s, m)
    decreases |gaps|
  {
    hide IsAt;
    if |gaps| > 1 {
      var rest := Join(gaps[1..], m);
      LeftmostIsUnique(gaps[1..], rest, m);
      FindAfterGap(gaps[0], m, rest);
      assert s == gaps[0] + m + rest;
      assert s[|gaps[0]| + |m|..] == rest;
      assert s[..|gaps[0]|] == gaps[0];
      assert gaps == [gaps[0]] + gaps[1..];
    }
  }

  // One step of the replacement, at the first match.
  lemma ReplaceStep(s: string, m: string, r: string)
    requires m != [] && Find(s, m).Some?
    ensures var i := Find(s, m).value;
      && ReplaceAll(s, m, r) == s[..i] + r + ReplaceAll(s[i + |m|..], m, r)
      && Count(s, m) == 1 + Count(s[i + |m|..], m)
  {
    var rest := s[Find(s, m).value + |m|..];
    SplitStep(s, m);
    hide Split, Find;
    assert Split(s, m)[1..] == Split(rest, m);
  }

  lemma SplitStep(s: string, m: string)
    requires m != [] && Find(s, m).Some?
    ensures var i := Find(s, m).value;
      i + |m| <= |s| && Split(s, m) == [s[..i]] + Split(s[i + |m|..], m)
  {
    hide Find;
  }

  lemma ReplaceNothing(s: string, m: string, r: string)
    requires m != [] && Find(s, m).None?
    ensures ReplaceAll(s, m, r) == s && Count(s, m) == 0
  {
  }

  lemma Distribute(d: int, c: nat)
    ensures d * (1 + c) == d + d * c
  {
  }

  // The size of the result is an exact function of the number of matches.
  lemma {:induction false} ReplaceLength(s: string, m: string, r: string)
    requires m != []
    ensures |ReplaceAll(s, m, r)| == |s| + (|r| - |m|) * Count(s, m)
    decreases |s|
  {
    hide ReplaceAll, Count, Find;
    if Find(s, m).None? {
      ReplaceNothing(s, m, r);
    } else {
      ReplaceStep(s, m, r);
      var rest := s[Find(s, m).value + |m|..];
      ReplaceLength(rest, m, r);
      Distribute(|r| - |m|, Count(rest, m));
    }
  }

  lemma {:induction false} ReplaceKeepsCString(s: string, m: string, r: string)
    requires m != [] && IsCString(s) && IsCString(r)
    ensures IsCString(ReplaceAll(s, m, r))
    decreases |s|
  {
    hide ReplaceAll, Find, Count, IsAt;
    match Find(s, m)
    case None => ReplaceNothing(s, m, r);
    case Some(i) =>
      ReplaceStep(s, m, r);
      SplitStep(s, m);
      SlicesAreCStrings(s, i, i + |m|);
      ReplaceKeepsCString(s[i + |m|..], m, r);
  }

  lemma SlicesAreCStrings(s: string, i: nat, j: nat)
    requires IsCString(s) && i <= j <= |s|
    ensures IsCString(s[..i]) && IsCString(s[j..])
  {
  }

  // Replacing a text by itself changes nothing.
  lemma ReplaceBySelf(s: string, m: string)
    requires m != []
    ensures ReplaceAll(s, m, m) == s
  {
    SplitIsLeftmost(s, m);
  }
}

// replace() of replace.c: replace-all inside one buffer, the tail of the string being
// shifted over itself for every match.
module Replace {
  import opened Prelude
  import opened CString
  import opened Moves
  import opened ReplaceText

  // for (x = strlen(tmp) + shift; x > shift; x--) tmp[x] = tmp[x - shift];
  method ShiftRight(a: array<char>, p: nat, shift: nat)
    requires p <= a.Length && NUL in a[p..]
    requires p + StrLen(a[..], p) + shift < a.Length && shift > 0
    modifies a
    ensures a[..] == Moved(old(a[..]), p + shift + 1, p + 1, old(StrLen(a[..], p)))
  {
    hide Moved, StrLen;
    ghost var m := a[..];
    var x := StrLen(a[..], p) + shift;
    ghost var n, done: nat := StrLen(m, p), 0;
    MovedNone(m, p + n + shift + 1, p + n + 1);
    while x > shift
      invariant shift <= x && x + done == n + shift
      invariant a[..] == Moved(m, p + x + 1, p + x - shift + 1, done)
    {
      MovedDownwards(m, p + x, p + x - shift, done, 1);
      MovedOne(a[..], p + x, p + x - shift);
      a[p + x] := a[p + x - shift];
      x, done := x - 1, done + 1;
    }
  }

  // While the terminator has not moved, the length at p is still n; when it has moved,
  // the length is what the string has shrunk to.
  lemma LengthDuringShift(m: string, p: nat, mlen: nat, rlen: nat, n: nat, x: nat)
    requires rlen < mlen <= n && p + n < |m| && m[p + n] == NUL && mlen <= x <= n + 1
    requires forall k :: p <= k < p + n ==> m[k] != NUL
    ensures var now := Moved(m, p + rlen, p + mlen, x - mlen);
      NUL in now[p..] && StrLen(now, p) == if x <= n then n else n - mlen + rlen
  {
    hide Moved, StrLen;
    var now := Moved(m, p + rlen, p + mlen, x - mlen);
    var end := if x <= n then p + n else p + n - mlen + rlen;
    MovedAt(m, p + rlen, p + mlen, x - mlen, end);
    assert now[end] == m[p + n];
    forall k: nat | p <= k < end
      ensures now[k] != NUL
    {
      MovedAt(m, p + rlen, p + mlen, x - mlen, k);
    }
    StrLenIs(now, p, end - p);
  }

  // for (x = mlen; x < strlen(tmp) - shift; x++) tmp[x + shift] = tmp[x]; with shift == rlen - mlen.
  // strlen is evaluated anew in every round, on the string being moved. The terminator is
  // the last character moved.
  method ShiftLeft(a: array<char>, p: nat, mlen: nat, rlen: nat)
    requires rlen < mlen && p <= a.Length && NUL in a[p..] && mlen <= StrLen(a[..], p)
    modifies a
    ensures a[..] == Moved(old(a[..]), p + rlen, p + mlen, old(StrLen(a[..], p)) - mlen + 1)
  {
    hide Moved, StrLen;
    ghost var m, n := a[..], StrLen(a[..], p);
    var x, shift := mlen, rlen - mlen;
    MovedNone(m, p + rlen, p + mlen);
    LengthDuringShift(m, p, mlen, rlen, n, x);
    while x < StrLen(a[..], p) - shift
      invariant mlen <= x <= n + 1
      invariant a[..] == Moved(m, p + rlen, p + mlen, x - mlen)
      invariant NUL in a[p..] && StrLen(a[..], p) == if x <= n then n else n + shift
      decreases n + 1 - x
    {
      MovedUpwards(m, p + rlen, p + mlen, x - mlen, 1);
      MovedOne(a[..], p + x + shift, p + x);
      a[p + x + shift] := a[p + x];
      x := x + 1;
      LengthDuringShift(m, p, mlen, rlen, n, x);
    }
  }

  // The tail suf and its terminator stand at to; everything up to p and everything above
  // both the old and the new terminator is as it was.
  ghost predicate TailAt(m: string, now: string, p: nat, to: nat, suf: string, top: nat) {
    && p <= to && to + |suf| < |now| == |m| && p <= |m|
    && now[..p] == m[..p]
    && now[to..to + |suf|] == suf && now[to + |suf|] == NUL
    && (forall k :: top < k < |m| ==> now[k] == m[k])
  }

  lemma TailAfterShiftRight(m: string, pre: string, mch: string, suf: string, rlen: nat)
    requires mch != [] && rlen > |mch| && HoldsAt(m, 0, pre + mch + suf)
    requires |pre| + rlen + |suf| < |m|
    ensures TailAt(m, Moved(m, |pre| + (rlen - |mch|) + 1, |pre| + 1, |mch + suf|), |pre|,
                   |pre| + rlen, suf, |pre| + rlen + |suf|)
  {
    hide Moved;
    var p, n, shift := |pre|, |mch + suf|, rlen - |mch|;
    var now := Moved(m, p + shift + 1, p + 1, n);
    MovedSlices(m, p + shift + 1, p + 1, n);
    assert m[..|pre + mch + suf|] == pre + mch + suf;
    var to := p + rlen;
    assert m[p + |mch|..p + |mch| + |suf|] == (pre + mch + suf)[p + |mch|..] == suf;
    MovedStretch(m, p + shift + 1, p + 1, n, |mch| - 1, |suf|);
  }

  lemma TailAfterShiftLeft(m: string, pre: string, mch: string, suf: string, rlen: nat)
    requires rlen < |mch| && HoldsAt(m, 0, pre + mch + suf)
    ensures var now := Moved(m, |pre| + rlen, |pre| + |mch|, |suf| + 1);
      && TailAt(m, now, |pre|, |pre| + rlen, suf, |pre| + |mch| + |suf|)
      && now[|pre| + |mch| + |suf|] == NUL
  {
    hide Moved;
    var p, to := |pre| + |mch|, |pre| + rlen;
    var now := Moved(m, to, p, |suf| + 1);
    MovedSlices(m, to, p, |suf| + 1);
    assert m[..|pre + mch + suf|] == pre + mch + suf;
    assert m[p..p + |suf|] == (pre + mch + suf)[p..] == suf;
    MovedStretch(m, to, p, |suf| + 1, 0, |suf|);
  }

  lemma TailInPlace(m: string, pre: string, mch: string, suf: string)
    requires HoldsAt(m, 0, pre + mch + suf)
    ensures TailAt(m, m, |pre|, |pre| + |mch|, suf, |pre| + |mch| + |suf|)
    ensures m[|pre| + |mch| + |suf|] == NUL
  {
    var p := |pre| + |mch|;
    assert m[..|pre + mch + suf|] == pre + mch + suf;
    assert m[p..p + |suf|] == (pre + mch + suf)[p..] == suf;
  }

  // The last cell that a round may write.
  function Top(pre: nat, mlen: nat, rlen: nat, suf: nat): nat {
    pre + (if rlen > mlen then rlen else mlen) + suf
  }

  lemma Spliced(m: string, m1: string, m2: string, pre: string, mch: string, rpl: string, suf: string)
    requires HoldsAt(m, 0, pre + mch + suf) && IsCString(rpl)
    requires TailAt(m, m1, |pre|, |pre| + |rpl|, suf, Top(|pre|, |mch|, |rpl|, |suf|))
    requires m2 == m1[..|pre|] + rpl + m1[|pre| + |rpl|..]
    ensures HoldsAt(m2, 0, pre + rpl + suf)
    ensures forall k :: |pre + mch + suf| < k < |m| && |pre + rpl + suf| < k ==> m2[k] == m[k]
    ensures |rpl| <= |mch| ==> m2[|pre + mch + suf|] == m1[|pre + mch + suf|]
  {
    assert m[..|pre + mch + suf|] == pre + mch + suf;
    assert m[..|pre|] == pre;
    assert m2[..|pre + rpl + suf|] == pre + rpl + suf;
    assert forall k :: |pre| + |rpl| <= k < |m| ==> m2[k] == m1[k];
  }

  // The text that follows the match moves to where rpl will end.
  method MakeRoom(a: array<char>, tmp: nat, mch: string, rlen: nat, ghost pre: string, ghost suf: string)
    requires mch != [] && tmp == |pre| && HoldsAt(a[..], 0, pre + mch + suf)
    requires tmp + rlen + |suf| < a.Length
    modifies a
    ensures TailAt(old(a[..]), a[..], tmp, tmp + rlen, suf, Top(tmp, |mch|, rlen, |suf|))
    ensures rlen <= |mch| ==> tmp + |mch| + |suf| < a.Length && a[tmp + |mch| + |suf|] == NUL
  {
    hide Moved, StrLen, TailAt;
    ghost var m := a[..];
    assert pre + mch + suf == pre + (mch + suf);
    HoldsSuffix(m, 0, pre, mch + suf);
    StrLenHolds(m, tmp, mch + suf);
    if rlen > |mch| {
      TailAfterShiftRight(m, pre, mch, suf, rlen);
      ShiftRight(a, tmp, rlen - |mch|);
    } else if rlen < |mch| {
      TailAfterShiftLeft(m, pre, mch, suf, rlen);
      ShiftLeft(a, tmp, |mch|, rlen);
    } else {
      TailInPlace(m, pre, mch, suf);
    }
  }

  // One round of the loop: the match at tmp becomes rpl.
  method ReplaceOne(a: array<char>, tmp: nat, mch: string, rpl: string, ghost pre: string, ghost suf: string)
    requires mch != [] && IsCString(rpl) && tmp == |pre|
    requires HoldsAt(a[..], 0, pre + mch + suf) && |pre + rpl + suf| < a.Length
    modifies a
    ensures HoldsAt(a[..], 0, pre + rpl + suf)
    ensures forall k :: |pre + mch + suf| < k < a.Length && |pre + rpl + suf| < k ==> a[k] == old(a[k])
    ensures |rpl| <= |mch| ==> a[|pre + mch + suf|] == NUL
  {
    ghost var m := a[..];
    hide HoldsAt, TailAt, IsCString, Top;
    MakeRoom(a, tmp, mch, |rpl|, pre, suf);
    ghost var m1 := a[..];
    StrNCpy(a, tmp, rpl);
    Spliced(m, m1, a[..], pre, mch, rpl, suf);
    assert forall k :: |pre + mch + suf| < k < a.Length && |pre + rpl + suf| < k ==> a[..][k] == m[k];
    assert |rpl| <= |mch| ==> a[..][|pre + mch + suf|] == m1[|pre + mch + suf|];
  }

  // What a call is meant to leave in the buffer: an absent or empty match copies, an
  // absent replacement deletes.
  function Replaced(s: string, mch: Option<string>, rpl: Option<string>): string {
    if mch.None? || mch.value == "" then s
    else ReplaceAll(s, mch.value, if rpl.None? then "" else rpl.value)
  }

  // The counting loop of the first pass.
  method CountMatches(s: string, mch: string) returns (count: nat)
    requires mch != []
    ensures count == Count(s, mch)
  {
    hide Find, Split;
    count := 0;
    var tmp := 0;
    while true
      invariant tmp <= |s| && count + Count(s[tmp..], mch) == Count(s, mch)
      decreases |s| - tmp
    {
      var found := Find(s[tmp..], mch);
      if found.None? {
        ReplaceNothing(s[tmp..], mch, "");
        return;
      }
      ReplaceStep(s[tmp..], mch, "");
      assert s[tmp..][found.value + |mch|..] == s[tmp + found.value + |mch|..];
      count := count + 1;
      tmp := tmp + found.value + |mch|;
    }
  }

  // strstr on the string that stands at address p.
  method StrStr(a: array<char>, p: nat, mch: string, ghost s: string) returns (r: Option<nat>)
    requires mch != [] && HoldsAt(a[..], p, s)
    ensures r == Find(s, mch)
  {
    StrLenHolds(a[..], p, s);
    r := Find(a[p..p + StrLen(a[..], p)], mch);
  }

  // The part of the string still to be scanned never needs more room than the result.
  lemma RoomSuffices(done: string, rest: string, mch: string, rpl: string)
    requires mch != [] && |rpl| >= |mch|
    ensures |done + rest| <= |done + ReplaceAll(rest, mch, rpl)|
  {
    hide ReplaceAll, Count;
    ReplaceLength(rest, mch, rpl);
    assert (|rpl| - |mch|) * Count(rest, mch) >= 0;
  }

  // The mutating loop. It runs once per match of the original text, matches that appear
  // inside inserted text are never seen, and no cell above the larger of the two lengths
  // is written.
  method Rewrite(a: array<char>, s: string, mch: string, rpl: string) returns (ghost rounds: nat)
    requires mch != [] && IsCString(s) && IsCString(mch) && IsCString(rpl)
    requires HoldsAt(a[..], 0, s) && |s| < a.Length && |ReplaceAll(s, mch, rpl)| < a.Length
    requires a[|s|] == NUL
    modifies a
    ensures HoldsAt(a[..], 0, ReplaceAll(s, mch, rpl))
    ensures rounds == Count(s, mch)
    ensures forall k :: |s| < k < a.Length && |ReplaceAll(s, mch, rpl)| < k ==> a[k] == old(a[k])
    ensures |rpl| <= |mch| ==> a[|s|] == NUL
  {
    hide Find, Split, ReplaceAll, Count, HoldsAt;
    rounds := 0;
    var tmp := 0;
    ghost var result := ReplaceAll(s, mch, rpl);
    ghost var done, rest := "", s;
    assert "" + s == s && "" + result == result;
    while true
      invariant tmp == |done| && HoldsAt(a[..], 0, done + rest)
      invariant result == done + ReplaceAll(rest, mch, rpl)
      invariant Count(s, mch) == rounds + Count(rest, mch)
      invariant |rpl| <= |mch| ==> |done + rest| <= |s| && a[|s|] == NUL
      invariant forall k :: |s| < k < a.Length && |result| < k ==> a[k] == old(a[k])
      decreases |rest|
    {
      HoldsSuffix(a[..], 0, done, rest);
      var found := StrStr(a, tmp, mch, rest);
      if found.None? {
        ReplaceNothing(rest, mch, rpl);
        return;
      }
      ghost var i := found.value;
      ghost var pre, suf := done + rest[..i], rest[i + |mch|..];
      assert done + rest == pre + mch + suf;
      ReplaceStep(rest, mch, rpl);
      assert result == pre + rpl + ReplaceAll(suf, mch, rpl);
      if |rpl| >= |mch| {
        RoomSuffices(pre + rpl, suf, mch, rpl);
        RoomSuffices(done, rest, mch, rpl);
      }
      ReplaceOne(a, tmp + found.value, mch, rpl, pre, suf);
      tmp := tmp + found.value + |rpl|;
      done, rest, rounds := pre + rpl, suf, rounds + 1;
    }
  }

  // The room a call needs: the len cells it is told about and, when it rewrites, also a
  // cell for every character of the unreplaced text, which is copied first.
  ghost predicate Roomy(capacity: nat, len: int, s: string, mch: Option<string>, rpl: Option<string>) {
    len <= capacity && (|Replaced(s, mch, rpl)| < len ==> |s| < capacity)
  }

  // replace(). Code 0 means done, a positive code is the exact size the buffer would need,
  // and on every other code the buffer is as it was.
  method Replace(buffer: array?<char>, len: int, text: Option<string>, mch: Option<string>, rpl: Option<string>)
    returns (code: int, ghost rounds: nat)
    requires text.Some? ==> IsCString(text.value)
    requires mch.Some? ==> IsCString(mch.value)
    requires rpl.Some? ==> IsCString(rpl.value)
    requires buffer != null && text.Some? ==> Roomy(buffer.Length, len, text.value, mch, rpl)
    modifies if buffer == null then {} else {buffer}
    ensures buffer == null ==> code == -1
    ensures buffer != null && len < 0 ==> code == -2
    ensures buffer != null && len >= 0 && text.None? ==> code == -3
    ensures buffer != null && len >= 0 && text.Some? ==>
      code == if |Replaced(text.value, mch, rpl)| < len then 0 else |Replaced(text.value, mch, rpl)| + 1
    ensures buffer != null && code != 0 ==> buffer[..] == old(buffer[..])
    ensures code == 0 ==> buffer != null && text.Some? && HoldsAt(buffer[..], 0, Replaced(text.value, mch, rpl))
    ensures code == 0 && mch.Some? && mch.value != "" ==> rounds == Count(text.value, mch.value)
    // In terms of the text alone: whatever its leftmost gaps are, code 0 leaves them joined by
    // the replacement, and a positive code is the size that takes.
    ensures code == 0 && (mch.None? || mch.value == "") ==> HoldsAt(buffer[..], 0, text.value)
    ensures code > 0 && (mch.None? || mch.value == "") ==> code == |text.value| + 1
    ensures code >= 0 && mch.Some? && mch.value != "" ==>
      forall gaps: seq<string> :: |gaps| >= 1 && Leftmost(gaps, mch.value) && Join(gaps, mch.value) == text.value ==>
        var result := Join(gaps, if rpl.Some? then rpl.value else "");
        && (code == 0 <==> |result| < len)
        && (if code == 0 then HoldsAt(buffer[..], 0, result) else code == |result| + 1)
    // Nothing outside the len cells changes, except that a text of len characters or more
    // puts its terminator there before it is shortened.
    ensures code == 0 && |text.value| < len ==> buffer[len..] == old(buffer[len..])
    ensures code == 0 && |text.value| >= len ==> |text.value| < buffer.Length && buffer[|text.value|] == NUL
  {
    hide Find, Split, ReplaceAll, Count, Join, Leftmost, HoldsAt;
    if text.Some? && mch.Some? && mch.value != "" {
      ReplacedByGaps(text.value, mch.value, rpl);
    }
    rounds := 0;
    if buffer == null { return -1, 0; }
    if len < 0 { return -2, 0; }
    if text.None? { return -3, 0; }
    var s := text.value;
    if mch.None? || mch.value == "" {
      if len <= |s| { return |s| + 1, 0; }
      StrCpy(buffer, s);
      return 0, 0;
    }
    var m, r := mch.value, if rpl.None? then "" else rpl.value;
    var count := CountMatches(s, m);
    ReplaceLength(s, m, r);
    if count == 0 {
      NoCountNoChange(s, m, r);
      if len <= |s| { return |s| + 1, 0; }
      StrCpy(buffer, s);
      return 0, 0;
    }
    var shift := |r| - |m|;
    var nlen := |s| + shift * count;
    if nlen >= len { return nlen + 1, 0; }
    StrCpy(buffer, s);
    rounds := Rewrite(buffer, s, m, r);
    if |s| >= len {
      ShrinksOnly(shift, count);
    }
    return 0, rounds;
  }

  lemma ReplacedByGaps(s: string, m: string, rpl: Option<string>)
    requires m != ""
    ensures forall gaps: seq<string> :: |gaps| >= 1 && Leftmost(gaps, m) && Join(gaps, m) == s ==>
      Join(gaps, if rpl.Some? then rpl.value else "") == Replaced(s, Some(m), rpl)
  {
    hide Split, Join, Leftmost;
    forall gaps: seq<string> | |gaps| >= 1 && Leftmost(gaps, m) && Join(gaps, m) == s
      ensures gaps == Split(s, m)
    {
      LeftmostIsUnique(gaps, s, m);
    }
  }

  lemma NoCountNoChange(s: string, m: string, r: string)
    requires m != [] && Count(s, m) == 0
    ensures ReplaceAll(s, m, r) == s
  {
    if Find(s, m).Some? {
      ReplaceStep(s, m, r);
    }
  }

  lemma ShrinksOnly(shift: int, count: int)
    requires count > 0 && shift * count < 0
    ensures shift < 0
  {
  }

  // A buffer of exactly the promised two cells would be overrun: with len == 2 the text
  // "$$$" is deleted, the code is 0, and cell 3 has been written.
  method OverrunWitness() returns (buffer: array<char>, code: int)
    ensures fresh(buffer) && buffer.Length == 4
    ensures code == 0 && buffer[3] != 'x'
  {
    buffer := new char[4](_ => 'x');
    assert IsAt("$$$", 0, "$$$");
    assert Replaced("$$$", Some("$$$"), None) == "";
    ghost var rounds;
    code, rounds := Replace(buffer, 2, Some("$$$"), Some("$$$"), None);
  }
}

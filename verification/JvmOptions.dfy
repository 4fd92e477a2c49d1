// The JVM option list of javajni.c: the strings of a multi-string are unquoted where they
// lie in one buffer, and each option points into it.
module JvmOptions {
  import opened CString
  import opened MultiSz
  import opened Prelude

  function Without(s: string, c: char): (r: string)
    ensures |r| <= |s|
  {
    if s == "" then "" else (if s[0] == c then "" else [s[0]]) + Without(s[1..], c)
  }

  lemma {:induction false} WithoutIsCString(s: string, c: char)
    requires IsCString(s)
    ensures IsCString(Without(s, c))
  {
    if s != "" {
      assert s == [s[0]] + s[1..];
      WithoutIsCString(s[1..], c);
    }
  }

  lemma {:induction false} WithoutConcat(a: string, b: string, c: char)
    ensures Without(a + b, c) == Without(a, c) + Without(b, c)
  {
    if a == "" {
      assert a + b == b;
    } else {
      assert (a + b)[1..] == a[1..] + b;
      WithoutConcat(a[1..], b, c);
    }
  }

  lemma WithoutStep(s: string, i: nat, c: char)
    requires i < |s|
    ensures Without(s[..i + 1], c) == Without(s[..i], c) + if s[i] == c then "" else [s[i]]
  {
    assert s[..i + 1] == s[..i] + [s[i]];
    WithoutConcat(s[..i], [s[i]], c);
    assert Without([s[i]][1..], c) == "";
  }

  // t is s with every c taken out: each other character stands as far further left as
  // there are c before it.
  ghost predicate TakenOut(s: string, c: char, t: string) {
    && |t| == |s| - Occurrences(s, c) && c !in t
    && forall i :: 0 <= i < |s| && s[i] != c ==> StandsFurtherLeft(s, c, t, i)
  }

  ghost predicate StandsFurtherLeft(s: string, c: char, t: string, i: nat)
    requires i < |s|
  {
    var j := i - Occurrences(s[..i], c);
    0 <= j < |t| && t[j] == s[i]
  }

  lemma {:induction false} WithoutMeans(s: string, c: char)
    ensures TakenOut(s, c, Without(s, c))
  {
    hide Occurrences;
    if s != "" {
      var rest := s[1..];
      WithoutMeans(rest, c);
      assert s == [s[0]] + rest;
      OccurrencesBehind(s[0], rest, c);
      forall i | 0 <= i < |s| && s[i] != c
        ensures StandsFurtherLeft(s, c, Without(s, c), i)
      {
        StandsBehind(s, c, i);
      }
    } else {
      assert Occurrences("", c) == 0 by {
        OccurrencesOfNothing(c);
      }
    }
  }

  lemma StandsBehind(s: string, c: char, i: nat)
    requires i < |s| && s[i] != c
    requires i > 0 ==> StandsFurtherLeft(s[1..], c, Without(s[1..], c), i - 1)
    ensures StandsFurtherLeft(s, c, Without(s, c), i)
  {
    hide Occurrences;
    if i == 0 {
      OccurrencesOfNothing(c);
      assert s[..0] == "";
    } else {
      assert s[..i] == [s[0]] + s[1..][..i - 1];
      OccurrencesBehind(s[0], s[1..][..i - 1], c);
    }
  }

  // A space inside the first pair of quotes keeps the quotes of the whole string.
  function QuotesNeeded(s: string, inQuote: bool): bool {
    if s == "" then false
    else if s[0] == '"' then !inQuote && QuotesNeeded(s[1..], true)
    else if s[0] == ' ' && inQuote then true
    else QuotesNeeded(s[1..], inQuote)
  }

  ghost predicate SpaceBeforeQuote(s: string, from: nat) {
    exists k :: from <= k < |s| && s[k] == ' ' && '"' !in s[from..k]
  }

  lemma SpaceBeforeQuoteLater(s: string, n: nat)
    requires n <= |s|
    ensures SpaceBeforeQuote(s[n..], 0) <==> SpaceBeforeQuote(s, n)
  {
    var t := s[n..];
    if k :| 0 <= k < |t| && t[k] == ' ' && '"' !in t[0..k] {
      assert s[n + k] == ' ' && s[n..n + k] == t[0..k];
    }
    if k :| n <= k < |s| && s[k] == ' ' && '"' !in s[n..k] {
      assert t[k - n] == ' ' && t[0..k - n] == s[n..k];
    }
  }

  lemma {:induction false} InQuoteMeans(s: string)
    ensures QuotesNeeded(s, true) <==> SpaceBeforeQuote(s, 0)
  {
    if s != "" {
      InQuoteMeans(s[1..]);
      SpaceBeforeQuoteLater(s, 1);
      if s[0] == ' ' {
        assert '"' !in s[0..0];
      } else {
        if k :| 0 <= k < |s| && s[k] == ' ' && '"' !in s[0..k] {
          assert s[0] in s[0..k] && s[1..k] == s[0..k][1..];
        }
        if k :| 1 <= k < |s| && s[k] == ' ' && '"' !in s[1..k] {
          assert s[0..k] == [s[0]] + s[1..k];
        }
      }
    }
  }

  // Where the first quote stands, or the length.
  function FirstQuote(s: string): (k: nat)
    ensures k <= |s| && '"' !in s[..k] && (k < |s| ==> s[k] == '"')
  {
    if s == "" || s[0] == '"' then 0 else 1 + FirstQuote(s[1..])
  }

  lemma {:induction false} QuotesNeededFromFirst(s: string)
    ensures var f := FirstQuote(s); QuotesNeeded(s, false) <==> f < |s| && QuotesNeeded(s[f + 1..], true)
  {
    if s != "" && s[0] != '"' {
      QuotesNeededFromFirst(s[1..]);
      var f := FirstQuote(s[1..]);
      if f < |s[1..]| {
        assert s[1..][f + 1..] == s[f + 2..];
      }
    }
  }

  // The quotes stay exactly when some space follows the first quote and no other quote
  // comes in between; a quote that is never closed counts as one.
  lemma QuotesNeededMeans(s: string)
    ensures var f := FirstQuote(s); QuotesNeeded(s, false) <==> f < |s| && SpaceBeforeQuote(s, f + 1)
  {
    hide QuotesNeeded, FirstQuote, SpaceBeforeQuote;
    QuotesNeededFromFirst(s);
    var f := FirstQuote(s);
    if f < |s| {
      InQuoteMeans(s[f + 1..]);
      SpaceBeforeQuoteLater(s, f + 1);
    }
  }

  function Unquote(s: string): string {
    if QuotesNeeded(s, false) then s else Without(s, '"')
  }

  // What the unquoted string t of s is: s itself when a space follows the first quote before
  // any other, and s without its quotes otherwise.
  ghost predicate IsUnquoted(s: string, t: string) {
    var f := FirstQuote(s);
    if f < |s| && SpaceBeforeQuote(s, f + 1) then t == s else TakenOut(s, '"', t)
  }

  lemma UnquoteMeans(s: string)
    ensures IsUnquoted(s, Unquote(s))
  {
    hide Without, QuotesNeeded, SpaceBeforeQuote, TakenOut;
    QuotesNeededMeans(s);
    WithoutMeans(s, '"');
  }

  // apxStrCharRemoveA on the string s at address p. Cells above its old terminator are not
  // touched, whatever lies there.
  method CharRemove(a: array<char>, p0: nat, c: char, ghost s: string) returns (removed: nat)
    requires HoldsAt(a[..], p0, s)
    modifies a
    ensures HoldsAt(a[..], p0, Without(s, c)) && removed == |s| - |Without(s, c)|
    ensures removed == Occurrences(s, c) && TakenOut(s, c, a[p0..p0 + |s| - removed])
    ensures a[..p0] == old(a[..p0]) && a[p0 + |s| + 1..] == old(a[p0 + |s| + 1..])
  {
    hide Without, Occurrences, TakenOut;
    ghost var m := a[..];
    WithoutIsCString(s, c);
    WithoutMeans(s, c);
    TakenOutLength(s, c, Without(s, c));
    WithoutOfNothing(s, c);
    removed := 0;
    CharacterAt(m, p0, s, 0);
    if a[p0] == NUL {
      assert s[..0] == s;
      return;
    }
    var p, q := p0, p0;
    ghost var i := 0;
    while a[p] != NUL
      invariant i <= |s| && p == p0 + i && q == p0 + |Without(s[..i], c)| && removed == p - q >= 0
      invariant p < a.Length && a[p0..q] == Without(s[..i], c)
      invariant a[..p0] == m[..p0] && forall k :: p <= k < a.Length ==> a[k] == m[k]
      decreases |s| - i
    {
      CharacterAt(m, p0, s, i);
      WithoutStep(s, i, c);
      if a[p] != c {
        ghost var before := a[p0..q];
        a[q] := a[p];
        q := q + 1;
        assert a[p0..q] == before + [s[i]];
      } else {
        removed := removed + 1;
      }
      p, i := p + 1, i + 1;
      EndsInside(m, p0, s);
    }
    CharacterAt(m, p0, s, i);
    assert s[..i] == s;
    a[q] := NUL;
  }

  lemma TakenOutLength(s: string, c: char, t: string)
    requires TakenOut(s, c, t)
    ensures |s| - |t| == Occurrences(s, c)
  {
  }

  lemma CharacterAt(m: string, p: nat, s: string, i: nat)
    requires HoldsAt(m, p, s) && i <= |s|
    ensures m[p + i] == NUL <==> i == |s|
    ensures i < |s| ==> m[p + i] == s[i]
  {
    if i < |s| {
      assert m[p..p + |s|][i] == m[p + i];
      assert s[i] in s;
    }
  }

  lemma WithoutOfNothing(s: string, c: char)
    ensures Without(s[..0], c) == ""
  {
  }

  // The memory before and after the quotes of s at address p have been dealt with.
  ghost predicate UnquotedInPlace(m: string, now: string, p: nat, s: string, removed: int) {
    var f := FirstQuote(s);
    if f < |s| && SpaceBeforeQuote(s, f + 1) then now == m && removed == 0
    else
      && removed == Occurrences(s, '"') && p + |s| - removed <= |now|
      && var t := now[p..p + |s| - removed]; HoldsAt(now, p, t) && TakenOut(s, '"', t)
  }

  lemma IsUnquotedInPlace(m: string, now: string, p: nat, s: string, removed: int)
    requires QuotesNeeded(s, false) ==> now == m && removed == 0
    requires !QuotesNeeded(s, false) ==>
      && removed == Occurrences(s, '"') <= |s| && HoldsAt(now, p, Without(s, '"'))
      && removed == |s| - |Without(s, '"')|
    ensures UnquotedInPlace(m, now, p, s, removed)
  {
    hide Without, QuotesNeeded, SpaceBeforeQuote, TakenOut, Occurrences;
    QuotesNeededMeans(s);
    WithoutMeans(s, '"');
  }

  // apxStrUnQuoteInplaceA; the result is the number of quotes taken out.
  method UnquoteInplace(a: array<char>, p0: nat, ghost s: string) returns (removed: nat)
    requires HoldsAt(a[..], p0, s)
    modifies a
    ensures HoldsAt(a[..], p0, Unquote(s)) && removed == |s| - |Unquote(s)|
    ensures UnquotedInPlace(old(a[..]), a[..], p0, s, removed)
    ensures a[..p0] == old(a[..p0]) && a[p0 + |s| + 1..] == old(a[p0 + |s| + 1..])
  {
    hide HoldsAt, Without, TakenOut, Occurrences, UnquotedInPlace;
    ghost var m := a[..];
    EndsInside(m, p0, s);
    var p, needsQuote, inQuote := p0, false, false;
    ghost var i := 0;
    CharacterAt(a[..], p0, s, i);
    assert s[0..] == s;
    while a[p] != NUL
      invariant a[..] == m && i <= |s| && p == p0 + i < a.Length && !needsQuote
      invariant a[p] == NUL <==> i == |s|
      invariant QuotesNeeded(s, false) == QuotesNeeded(s[i..], inQuote)
      decreases |s| - i
    {
      CharacterAt(a[..], p0, s, i);
      assert s[i..][1..] == s[i + 1..];
      if a[p] == '"' {
        if inQuote {
          break;
        } else {
          inQuote := true;
        }
      } else if a[p] == ' ' {
        if inQuote {
          needsQuote := true;
          break;
        }
      }
      p, i := p + 1, i + 1;
      CharacterAt(a[..], p0, s, i);
    }
    if !needsQuote {
      removed := CharRemove(a, p0, '"', s);
    } else {
      removed := 0;
    }
    IsUnquotedInPlace(m, a[..], p0, s, removed);
  }

  lemma EndsInside(m: string, p: nat, s: string)
    requires HoldsAt(m, p, s)
    ensures p + |s| < |m|
  {
  }

  // Where option i ends up, in terms of the strings alone.
  ghost predicate Unquoted(m: string, list: seq<string>, k: nat) {
    && k < |list| && HoldsAt(m, |Flat(list[..k])|, Unquote(list[k]))
    && |Unquote(list[k])| <= |list[k]|
  }

  // The strings from k on have not been touched.
  ghost predicate Intact(m: string, list: seq<string>, k: nat) {
    k <= |list| && |Flat(list[..k])| <= |m| && m[|Flat(list[..k])|..] == Flat(list[k..]) + [NUL]
  }

  lemma IntactFirst(m: string, list: seq<string>, k: nat)
    requires Intact(m, list, k) && k < |list| && IsCString(list[k])
    ensures HoldsAt(m, |Flat(list[..k])|, list[k])
    ensures |Flat(list[..k + 1])| == |Flat(list[..k])| + |list[k]| + 1 <= |m|
    ensures Intact(m, list, k + 1)
  {
    var p := |Flat(list[..k])|;
    FlatStep(list, k);
    assert list[k..][1..] == list[k + 1..];
    assert m[p..] == list[k] + [NUL] + (Flat(list[k + 1..]) + [NUL]);
    assert m[p..p + |list[k]|] == m[p..][..|list[k]|];
    assert m[p + |list[k]|] == m[p..][|list[k]|];
    assert m[p + |list[k]| + 1..] == m[p..][|list[k]| + 1..];
  }

  // A change between the start and the end of string k disturbs no option before it.
  lemma OptionUndisturbed(m: string, now: string, list: seq<string>, j: nat, k: nat)
    requires |now| == |m| && j < k <= |list| && |Flat(list[..k])| <= |m|
    requires now[..|Flat(list[..k])|] == m[..|Flat(list[..k])|]
    requires Unquoted(m, list, j)
    ensures Unquoted(now, list, j)
  {
    hide Flat, Unquote;
    var p, q, u := |Flat(list[..j])|, |Flat(list[..k])|, Unquote(list[j]);
    EndsBefore(list, j, k);
    forall x | p <= x <= p + |u|
      ensures now[x] == m[x]
    {
      assert now[..q][x] == m[..q][x];
    }
    assert now[p..p + |u|] == m[p..p + |u|];
  }

  lemma EndsBefore(list: seq<string>, j: nat, k: nat)
    requires j < k <= |list|
    ensures |Flat(list[..j])| + |list[j]| < |Flat(list[..k])|
  {
    FlatStep(list, j);
    FlatConcat(list[..j + 1], list[j + 1..k]);
    assert list[..k] == list[..j + 1] + list[j + 1..k];
  }

  // And no string behind it.
  lemma IntactStays(m: string, now: string, list: seq<string>, k: nat)
    requires |now| == |m| && Intact(m, list, k)
    requires |Flat(list[..k])| <= |m| && now[|Flat(list[..k])|..] == m[|Flat(list[..k])|..]
    ensures Intact(now, list, k)
  {
  }

  lemma BufferFits(m: string, list: seq<string>)
    requires Holds(m, list)
    ensures |Flat(list)| + 1 <= |m| && m[..|Flat(list)| + 1] == Flat(list) + [NUL] && CStrings(list)
  {
  }

  lemma IntactAtStart(m: string, list: seq<string>)
    requires m == Flat(list) + [NUL]
    ensures Intact(m, list, 0)
  {
    assert list[0..] == list && list[..0] == [];
    assert m[0..] == m;
  }

  lemma UnquotedMeans(m: string, list: seq<string>, k: nat)
    requires Unquoted(m, list, k)
    ensures HoldsAt(m, |Flat(list[..k])|, Unquote(list[k]))
  {
  }

  lemma UnquoteIsShorter(s: string)
    ensures |Unquote(s)| <= |s|
  {
  }

  // One round of the loop: unquote string i, skip what is left of it and its terminator,
  // and skip as many characters again as quotes have been removed.
  method UnquoteNext(buff: array<char>, p0: nat, ghost list: seq<string>, ghost i: nat) returns (p: nat)
    requires CStrings(list) && i < |list| && p0 == |Flat(list[..i])| && Intact(buff[..], list, i)
    requires forall k :: 0 <= k < i ==> Unquoted(buff[..], list, k)
    modifies buff
    ensures p == |Flat(list[..i + 1])| && Intact(buff[..], list, i + 1)
    ensures forall k :: 0 <= k < i + 1 ==> Unquoted(buff[..], list, k)
  {
    hide Flat, HoldsAt, Unquote, Intact;
    ghost var m, s := buff[..], list[i];
    IntactFirst(m, list, i);
    UnquoteIsShorter(s);
    var removed := UnquoteInplace(buff, p0, s);
    IntactStays(m, buff[..], list, i + 1);
    forall k | 0 <= k < i
      ensures Unquoted(buff[..], list, k)
    {
      OptionUndisturbed(m, buff[..], list, k, i);
    }
    assert Unquoted(buff[..], list, i);
    label Scanning:
    p := p0;
    ghost var u, j := Unquote(s), 0;
    EndsInside(buff[..], p0, u);
    CharacterAt(buff[..], p0, u, 0);
    while buff[p] != NUL
      invariant j <= |u| && p == p0 + j && p0 + |u| < buff.Length
      invariant buff[p] == NUL <==> j == |u|
      invariant HoldsAt(buff[..], p0, u) && buff[..] == old@Scanning(buff[..])
      decreases |u| - j
    {
      p, j := p + 1, j + 1;
      CharacterAt(buff[..], p0, u, j);
    }
    p := p + 1;
    p := p + removed;
  }

  // What a reader finds at address p is s unquoted.
  ghost predicate StandsUnquoted(m: string, p: nat, s: string) {
    exists t :: HoldsAt(m, p, t) && IsUnquoted(s, t)
  }

  lemma UnquoteStands(m: string, p: nat, s: string)
    requires HoldsAt(m, p, Unquote(s))
    ensures StandsUnquoted(m, p, s)
  {
    UnquoteMeans(s);
  }

  // __apxMultiSzToJvmOptions: the options are the addresses of the unquoted strings. The
  // scan for the terminator stops early when quotes have been taken out; adding their
  // number leads to the next original string all the same.
  method ToJvmOptions(m: Option<string>, nExtra: nat, ghost list: seq<string>)
    returns (buff: array<char>, options: seq<nat>, n: nat)
    requires if m.Some? then Holds(m.value, list) else list == []
    ensures fresh(buff) && n == |list| + nExtra && |options| == |list|
    ensures forall i :: 0 <= i < |list| ==> HoldsAt(buff[..], options[i], Unquote(list[i]))
    ensures forall i :: 0 <= i < |list| ==> StandsUnquoted(buff[..], options[i], list[i])
    ensures forall i :: 0 <= i < |list| ==> options[i] == |Flat(list[..i])|
  {
    hide Flat, Holds, HoldsAt, Unquote, StandsUnquoted, Intact, Unquoted;
    var l;
    n, l := 0, 0;
    if m.Some? {
      l, n := GetLength(m.value, list);
    }
    n := n + nExtra;
    buff := Calloc(l + 1);
    FlatOfNothing();
    assert list == [] ==> CStrings(list);
    if m.Some? {
      BufferFits(m.value, list);
      Put(buff, 0, m.value[..l + 1]);
      assert buff[..] == m.value[..l + 1];
    }
    IntactAtStart(buff[..], list);
    var p, i := 0, 0;
    options := [];
    FlatNothing(list);
    while i < n - nExtra
      invariant i <= |list| && |options| == i && p == |Flat(list[..i])| && Intact(buff[..], list, i)
      invariant forall k :: 0 <= k < i ==> Unquoted(buff[..], list, k)
      invariant forall k :: 0 <= k < i ==> options[k] == |Flat(list[..k])|
    {
      options := options + [p];
      p := UnquoteNext(buff, p, list, i);
      i := i + 1;
    }
    forall k | 0 <= k < |list|
      ensures HoldsAt(buff[..], options[k], Unquote(list[k])) && StandsUnquoted(buff[..], options[k], list[k])
    {
      UnquotedMeans(buff[..], list, k);
      UnquoteStands(buff[..], options[k], list[k]);
    }
  }
}

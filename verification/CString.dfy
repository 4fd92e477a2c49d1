// NUL-terminated strings inside a larger memory.
module CString {
  import opened Prelude

  // strlen at address p.
  function StrLen(m: string, p: nat): (n: nat)
    requires p <= |m| && NUL in m[p..]
    ensures p + n < |m| && m[p + n] == NUL
    ensures forall k :: p <= k < p + n ==> m[k] != NUL
    decreases |m| - p
  {
    if m[p] == NUL then 0 else
      assert m[p..] == [m[p]] + m[p + 1..];
      1 + StrLen(m, p + 1)
  }

  // The text s, followed by its terminator, stands at address p.
  ghost predicate HoldsAt(m: string, p: nat, s: string) {
    && p + |s| < |m| && m[p..p + |s|] == s && m[p + |s|] == NUL && IsCString(s)
  }

  lemma StrLenIs(m: string, p: nat, n: nat)
    requires p + n < |m| && m[p + n] == NUL
    requires forall k :: p <= k < p + n ==> m[k] != NUL
    ensures NUL in m[p..] && StrLen(m, p) == n
  {
    assert m[p..][n] == NUL;
  }

  lemma StrLenHolds(m: string, p: nat, s: string)
    requires HoldsAt(m, p, s)
    ensures NUL in m[p..] && StrLen(m, p) == |s|
  {
    forall k | p <= k < p + |s|
      ensures m[k] != NUL
    {
      assert m[p..p + |s|][k - p] == s[k - p];
    }
    StrLenIs(m, p, |s|);
  }

  // A suffix of a string is the string at the later address.
  lemma HoldsSuffix(m: string, p: nat, a: string, b: string)
    requires HoldsAt(m, p, a + b)
    ensures HoldsAt(m, p + |a|, b)
  {
    assert m[p..p + |a + b|][|a|..] == b;
    assert b == (a + b)[|a|..];
  }

  // strcpy.
  method StrCpy(a: array<char>, s: string)
    requires IsCString(s) && |s| < a.Length
    modifies a
    ensures HoldsAt(a[..], 0, s)
    ensures a[|s| + 1..] == old(a[|s| + 1..])
  {
    var i := 0;
    while i < |s|
      invariant i <= |s| && a[..i] == s[..i]
      invariant a[|s| + 1..] == old(a[|s| + 1..])
    {
      a[i] := s[i];
      i := i + 1;
    }
    a[i] := NUL;
  }

  // strncpy(&a[p], s, strlen(s)): the characters without a terminator.
  method StrNCpy(a: array<char>, p: nat, s: string)
    requires p + |s| <= a.Length
    modifies a
    ensures a[..] == old(a[..p]) + s + old(a[p + |s|..])
  {
    var i := 0;
    while i < |s|
      invariant i <= |s| && a[p..p + i] == s[..i]
      invariant a[..p] == old(a[..p]) && a[p + |s|..] == old(a[p + |s|..])
    {
      a[p + i] := s[i];
      i := i + 1;
    }
    assert a[..] == a[..p] + a[p..p + |s|] + a[p + |s|..];
  }
}

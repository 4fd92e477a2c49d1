// What a block move leaves behind, for moves that overlap. Shared by the memory copy
// of mclib.c and by the in-place shifts of replace.c.
module Moves {

  // The sequence m after the n elements at src have arrived at dst, nothing else changing.
  ghost function Moved<T>(m: seq<T>, dst: nat, src: nat, n: nat): (r: seq<T>)
    requires dst + n <= |m| && src + n <= |m|
    ensures |r| == |m|
  {
    if n == 0 then m else Moved(m, dst, src, n - 1)[dst + n - 1 := m[src + n - 1]]
  }

  lemma {:induction false} MovedAt<T>(m: seq<T>, dst: nat, src: nat, n: nat, k: nat)
    requires dst + n <= |m| && src + n <= |m| && k < |m|
    ensures Moved(m, dst, src, n)[k] == if dst <= k < dst + n then m[k - dst + src] else m[k]
  {
    if n > 0 {
      MovedAt(m, dst, src, n - 1, k);
    }
  }

  lemma MovedSlices<T>(m: seq<T>, dst: nat, src: nat, n: nat)
    requires dst + n <= |m| && src + n <= |m|
    ensures Moved(m, dst, src, n) == m[..dst] + m[src..src + n] + m[dst + n..]
  {
    var r := m[..dst] + m[src..src + n] + m[dst + n..];
    forall k | 0 <= k < |r|
      ensures Moved(m, dst, src, n)[k] == r[k]
    {
      MovedAt(m, dst, src, n, k);
    }
  }

  // Any stretch of the destination is the matching stretch of the source.
  lemma MovedStretch<T>(m: seq<T>, dst: nat, src: nat, n: nat, i: nat, k: nat)
    requires dst + n <= |m| && src + n <= |m| && i + k <= n
    ensures Moved(m, dst, src, n)[dst + i..dst + i + k] == m[src + i..src + i + k]
  {
    var there, here := Moved(m, dst, src, n)[dst + i..dst + i + k], m[src + i..src + i + k];
    forall j | 0 <= j < k
      ensures there[j] == here[j]
    {
      MovedAt(m, dst, src, n, dst + i + j);
    }
  }

  // Moving a low block and then the block above it is one move, provided the
  // destination lies below the source: the first move cannot spoil the second.
  lemma MovedUpwards<T>(m: seq<T>, dst: nat, src: nat, a: nat, b: nat)
    requires dst < src && src + a + b <= |m|
    ensures Moved(Moved(m, dst, src, a), dst + a, src + a, b) == Moved(m, dst, src, a + b)
  {
    var m1 := Moved(m, dst, src, a);
    var twice, once := Moved(m1, dst + a, src + a, b), Moved(m, dst, src, a + b);
    forall k | 0 <= k < |m|
      ensures twice[k] == once[k]
    {
      MovedAt(m1, dst + a, src + a, b, k);
      MovedAt(m, dst, src, a + b, k);
      MovedAt(m, dst, src, a, if dst + a <= k < dst + a + b then k - dst + src else k);
    }
  }

  // The mirror image: the high block first when the destination lies above.
  lemma MovedDownwards<T>(m: seq<T>, dst: nat, src: nat, a: nat, b: nat)
    requires src < dst && dst + a + b <= |m|
    ensures Moved(Moved(m, dst + b, src + b, a), dst, src, b) == Moved(m, dst, src, a + b)
  {
    var m1 := Moved(m, dst + b, src + b, a);
    var twice, once := Moved(m1, dst, src, b), Moved(m, dst, src, a + b);
    forall k | 0 <= k < |m|
      ensures twice[k] == once[k]
    {
      MovedAt(m1, dst, src, b, k);
      MovedAt(m, dst, src, a + b, k);
      MovedAt(m, dst + b, src + b, a, if dst <= k < dst + b then k - dst + src else k);
    }
  }

  lemma MovedNone<T>(m: seq<T>, dst: nat, src: nat)
    requires dst <= |m| && src <= |m|
    ensures Moved(m, dst, src, 0) == m
  {
  }

  lemma MovedOne<T>(m: seq<T>, dst: nat, src: nat)
    requires dst < |m| && src < |m|
    ensures Moved(m, dst, src, 1) == m[dst := m[src]]
  {
    assert Moved(m, dst, src, 0) == m;
  }

  // Prologue, words and epilogue are one move, in either direction.
  lemma MovedUpwardsThrice<T>(m: seq<T>, dst: nat, src: nat, a: nat, b: nat, c: nat)
    requires dst < src && src + a + b + c <= |m|
    ensures Moved(Moved(Moved(m, dst, src, a), dst + a, src + a, b), dst + a + b, src + a + b, c)
         == Moved(m, dst, src, a + b + c)
  {
    MovedUpwards(m, dst, src, a, b);
    MovedUpwards(m, dst, src, a + b, c);
  }

  lemma MovedDownwardsThrice<T>(m: seq<T>, dst: nat, src: nat, a: nat, b: nat, c: nat)
    requires src < dst && dst + a + b + c <= |m|
    ensures Moved(Moved(Moved(m, dst + c + b, src + c + b, a), dst + c, src + c, b), dst, src, c)
         == Moved(m, dst, src, a + b + c)
  {
    MovedDownwards(m, dst + c, src + c, a, b);
    MovedDownwards(m, dst, src, a + b, c);
  }
}

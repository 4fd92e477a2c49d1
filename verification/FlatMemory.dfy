// The memory kernel of mclib.c: copying and filling inside one flat memory whose
// cells are addressed by their index, so that alignment is the index modulo the
// word size and source and destination may overlap in any way.
module FlatMemory {
  import opened Moves

  // A word is four bytes (the 32-bit UINT branch of the source).

  // The low bits of an address, the part that the wmask tests look at.
  function LowBits(address: nat): (low: bv2)
    ensures low == 0 <==> address % 4 == 0
  {
    match address % 4
    case 0 => 0
    case 1 => 1
    case 2 => 2
    case _ => 3
  }

  // One word is read whole and then written whole. Both addresses must be aligned.
  method CopyWord(mem: array<bv8>, dst: nat, src: nat)
    requires dst % 4 == 0 && src % 4 == 0
    requires dst + 4 <= mem.Length && src + 4 <= mem.Length
    modifies mem
    ensures mem[..] == Moved(old(mem[..]), dst, src, 4)
  {
    MovedSlices(mem[..], dst, src, 4);
    assert mem[src..src + 4] == [mem[src], mem[src + 1], mem[src + 2], mem[src + 3]];
    mem[dst], mem[dst + 1], mem[dst + 2], mem[dst + 3] :=
      mem[src], mem[src + 1], mem[src + 2], mem[src + 3];
  }

  // do { *dst++ = *src++; } while (--t), guarded by t != 0
  method BytesUp(mem: array<bv8>, dst: nat, src: nat, t: nat)
    requires dst < src && src + t <= mem.Length
    modifies mem
    ensures mem[..] == Moved(old(mem[..]), dst, src, t)
  {
    ghost var m := mem[..];
    var i := 0;
    while i < t
      invariant i <= t
      invariant mem[..] == Moved(m, dst, src, i)
    {
      MovedUpwards(m, dst, src, i, 1);
      MovedOne(mem[..], dst + i, src + i);
      mem[dst + i] := mem[src + i];
      i := i + 1;
    }
  }

  // do { *(word *)dst = *(word *)src; src += wsize; dst += wsize; } while (--t)
  method WordsUp(mem: array<bv8>, dst: nat, src: nat, t: nat)
    requires dst < src && src + t * 4 <= mem.Length
    requires t > 0 ==> dst % 4 == 0 && src % 4 == 0
    modifies mem
    ensures mem[..] == Moved(old(mem[..]), dst, src, t * 4)
  {
    hide Moved;
    ghost var m, done: nat := mem[..], 0;
    var d: nat, s: nat, i: nat := dst, src, t;
    MovedNone(m, d, s);
    while i > 0
      invariant i <= t && done == (t - i) * 4 && d == dst + done && s == src + done
      invariant mem[..] == Moved(m, dst, src, done)
    {
      MovedUpwards(m, dst, src, done, 4);
      CopyWord(mem, d, s);
      d, s, i, done := d + 4, s + 4, i - 1, done + 4;
    }
  }

  // do { *--dst = *--src; } while (--t), guarded by t != 0; dst and src are the block starts
  method BytesDown(mem: array<bv8>, dst: nat, src: nat, t: nat)
    requires src < dst && dst + t <= mem.Length
    modifies mem
    ensures mem[..] == Moved(old(mem[..]), dst, src, t)
  {
    ghost var m := mem[..];
    var i: nat := t;
    while i > 0
      invariant i <= t
      invariant mem[..] == Moved(m, dst + i, src + i, t - i)
    {
      i := i - 1;
      MovedDownwards(m, dst + i, src + i, t - i - 1, 1);
      MovedOne(mem[..], dst + i, src + i);
      mem[dst + i] := mem[src + i];
    }
  }

  // do { src -= wsize; dst -= wsize; *(word *)dst = *(word *)src; } while (--t)
  method WordsDown(mem: array<bv8>, dst: nat, src: nat, t: nat)
    requires src < dst && dst + t * 4 <= mem.Length
    requires t > 0 ==> dst % 4 == 0 && src % 4 == 0
    modifies mem
    ensures mem[..] == Moved(old(mem[..]), dst, src, t * 4)
  {
    hide Moved;
    ghost var m, done: nat := mem[..], 0;
    var d: nat, s: nat, i: nat := dst + t * 4, src + t * 4, t;
    MovedNone(m, d, s);
    while i > 0
      invariant i <= t && done == (t - i) * 4 && d == dst + i * 4 && s == src + i * 4
      invariant mem[..] == Moved(m, d, s, done)
    {
      d, s, i := d - 4, s - 4, i - 1;
      MovedDownwards(m, d, s, done, 4);
      CopyWord(mem, d, s);
      done := done + 4;
    }
  }

  // How many bytes the forward copy moves singly before it turns to words: enough to
  // align both operands, or everything when their low bits differ.
  function PrologueUp(dst: nat, src: nat, n: nat): (t: nat)
    ensures t <= n
    ensures n - t >= 4 ==> (dst + t) % 4 == 0 && (src + t) % 4 == 0
  {
    if LowBits(src) | LowBits(dst) == 0 then 0
    else if LowBits(src) ^ LowBits(dst) != 0 || n < 4 then n
    else 4 - src % 4
  }

  // The backward copy measures from the ends of the two blocks.
  function PrologueDown(dstEnd: nat, srcEnd: nat, n: nat): (t: nat)
    requires n <= dstEnd && n <= srcEnd
    ensures t <= n
    ensures n - t >= 4 ==> (dstEnd - t) % 4 == 0 && (srcEnd - t) % 4 == 0
  {
    if LowBits(srcEnd) | LowBits(dstEnd) == 0 then 0
    else if LowBits(srcEnd) ^ LowBits(dstEnd) != 0 || n <= 4 then n
    else srcEnd % 4
  }

  // AplCopyMemory, forward branch: the destination lies below the source.
  method CopyForward(mem: array<bv8>, destination: nat, source: nat, n: nat)
    requires destination < source && source + n <= mem.Length
    modifies mem
    ensures mem[..] == Moved(old(mem[..]), destination, source, n)
  {
    hide Moved;
    var t := PrologueUp(destination, source, n);
    BytesUp(mem, destination, source, t);
    var words, rest := (n - t) / 4, (n - t) % 4;
    WordsUp(mem, destination + t, source + t, words);
    BytesUp(mem, destination + t + words * 4, source + t + words * 4, rest);
    MovedUpwardsThrice(old(mem[..]), destination, source, t, words * 4, rest);
  }

  // AplCopyMemory, backward branch: everything runs from the ends downwards.
  method CopyBackward(mem: array<bv8>, destination: nat, source: nat, n: nat)
    requires source < destination && destination + n <= mem.Length
    modifies mem
    ensures mem[..] == Moved(old(mem[..]), destination, source, n)
  {
    hide Moved;
    var t := PrologueDown(destination + n, source + n, n);
    var words, rest := (n - t) / 4, (n - t) % 4;
    BytesDown(mem, destination + rest + words * 4, source + rest + words * 4, t);
    WordsDown(mem, destination + rest, source + rest, words);
    BytesDown(mem, destination, source, rest);
    MovedDownwardsThrice(old(mem[..]), destination, source, t, words * 4, rest);
  }

  // AplCopyMemory. Every word access is aligned: that is CopyWord's precondition.
  method CopyMemory(mem: array<bv8>, destination: nat, source: nat, n: nat) returns (r: nat)
    requires destination + n <= mem.Length && source + n <= mem.Length
    modifies mem
    ensures r == destination
    ensures mem[..] == old(mem[..destination] + mem[source..source + n] + mem[destination + n..])
  {
    MovedSlices(mem[..], destination, source, n);
    if n == 0 || destination == source {
      return destination;
    }
    if destination < source {
      CopyForward(mem, destination, source, n);
    } else {
      CopyBackward(mem, destination, source, n);
    }
    return destination;
  }

  // The bytes of a little-endian word.
  function WordByte(c: bv32, i: nat): bv8
    requires i < 4
  {
    match i
    case 0 => (c & 0xFF) as bv8
    case 1 => ((c >> 8) & 0xFF) as bv8
    case 2 => ((c >> 16) & 0xFF) as bv8
    case _ => ((c >> 24) & 0xFF) as bv8
  }

  method StoreWord(mem: array<bv8>, dst: nat, c: bv32)
    requires dst % 4 == 0 && dst + 4 <= mem.Length
    modifies mem
    ensures forall k :: dst <= k < dst + 4 ==> mem[k] == WordByte(c, k - dst)
    ensures forall k :: 0 <= k < mem.Length && !(dst <= k < dst + 4) ==> mem[k] == old(mem[k])
  {
    mem[dst], mem[dst + 1], mem[dst + 2], mem[dst + 3] :=
      WordByte(c, 0), WordByte(c, 1), WordByte(c, 2), WordByte(c, 3);
  }

  // The word built by the two shift-and-or steps of AplFillMemory.
  function FillWord(fill: bv8): (c: bv32)
  {
    if fill == 0 then 0
    else
      var c0 := fill as bv32;
      var c1 := (c0 << 8) | c0;
      (c1 << 16) | c1
  }

  // Every byte of that word is the fill byte.
  lemma FillWordBytes(fill: bv8)
    ensures forall i :: 0 <= i < 4 ==> WordByte(FillWord(fill), i) == fill
  {
  }

  ghost predicate FilledUpTo(m: seq<bv8>, now: seq<bv8>, start: nat, end: nat, fill: bv8)
  {
    && |now| == |m| && start <= end <= |m|
    && (forall k :: start <= k < end ==> now[k] == fill)
    && (forall k :: 0 <= k < |m| && !(start <= k < end) ==> now[k] == m[k])
  }

  method FillBytes(mem: array<bv8>, dst: nat, t: nat, fill: bv8, ghost m: seq<bv8>, ghost start: nat)
    requires dst + t <= mem.Length && FilledUpTo(m, mem[..], start, dst, fill)
    modifies mem
    ensures FilledUpTo(m, mem[..], start, dst + t, fill)
  {
    var i := 0;
    while i < t
      invariant i <= t
      invariant FilledUpTo(m, mem[..], start, dst + i, fill)
    {
      mem[dst + i] := fill;
      i := i + 1;
    }
  }

  method FillWords(mem: array<bv8>, dst: nat, t: nat, c: bv32, fill: bv8, ghost m: seq<bv8>, ghost start: nat)
    requires dst % 4 == 0 && dst + t * 4 <= mem.Length
    requires forall i :: 0 <= i < 4 ==> WordByte(c, i) == fill
    requires FilledUpTo(m, mem[..], start, dst, fill)
    modifies mem
    ensures FilledUpTo(m, mem[..], start, dst + t * 4, fill)
  {
    var i := 0;
    while i < t
      invariant i <= t
      invariant FilledUpTo(m, mem[..], start, dst + i * 4, fill)
    {
      StoreWord(mem, dst + i * 4, c);
      i := i + 1;
    }
  }

  // AplFillMemory; AplZeroMemory is the instance with fill == 0.
  method FillMemory(mem: array<bv8>, destination: nat, n: nat, fill: bv8) returns (r: nat)
    requires destination + n <= mem.Length
    modifies mem
    ensures r == destination
    ensures FilledUpTo(old(mem[..]), mem[..], destination, destination + n, fill)
    ensures forall i :: 0 <= i < mem.Length ==>
      mem[i] == if destination <= i < destination + n then fill else old(mem[i])
  {
    ghost var m := mem[..];
    var dst, length := destination, n;
    if length < 3 * 4 {
      FillBytes(mem, dst, length, fill, m, destination);
      return destination;
    }
    FillWordBytes(fill);
    var t := dst % 4;
    if t != 0 {
      t := 4 - t;
      length := length - t;
      FillBytes(mem, dst, t, fill, m, destination);
      dst := dst + t;
    }
    FillWords(mem, dst, length / 4, FillWord(fill), fill, m, destination);
    FillBytes(mem, dst + length / 4 * 4, length % 4, fill, m, destination);
    return destination;
  }
}

// Multi-strings of utils.c: strings that are each closed by a NUL, the whole closed by one
// more.
module MultiSz {
  import opened Prelude

  predicate CStrings(list: seq<string>) {
    forall i :: 0 <= i < |list| ==> IsCString(list[i])
  }

  // The strings one after the other, each with its terminator.
  function Flat(list: seq<string>): string {
    if list == [] then "" else list[0] + [NUL] + Flat(list[1..])
  }

  function Encode(list: seq<string>): string {
    Flat(list) + [NUL]
  }

  function FirstNul(m: string): (k: nat)
    ensures k <= |m| && NUL !in m[..k]
    ensures k < |m| ==> m[k] == NUL
  {
    if m == "" || m[0] == NUL then 0 else 1 + FirstNul(m[1..])
  }

  // What a reader of a multi-string sees: strings up to the first empty one.
  function Decode(m: string): seq<string>
    decreases |m|
  {
    var k := FirstNul(m);
    if k == 0 then []
    else [m[..k]] + if k < |m| then Decode(m[k + 1..]) else []
  }

  lemma {:induction false} FirstNulIs(m: string, k: nat)
    requires k < |m| && m[k] == NUL && NUL !in m[..k]
    ensures FirstNul(m) == k
  {
    if k > 0 {
      assert m[0] in m[..k] && m[..k][1..] == m[1..][..k - 1];
      FirstNulIs(m[1..], k - 1);
    }
  }

  function UpToEmpty(list: seq<string>): seq<string> {
    if list == [] || list[0] == "" then [] else [list[0]] + UpToEmpty(list[1..])
  }

  // Decoding gives back the strings before the first empty one, whatever follows.
  lemma {:induction false} DecodeFlat(list: seq<string>, tail: string)
    requires CStrings(list)
    ensures Decode(Flat(list) + [NUL] + tail) == UpToEmpty(list)
  {
    var m := Flat(list) + [NUL] + tail;
    if list == [] {
      FirstNulIs(m, 0);
    } else {
      var rest := Flat(list[1..]) + [NUL] + tail;
      assert m == list[0] + [NUL] + rest;
      assert m[..|list[0]|] == list[0];
      FirstNulIs(m, |list[0]|);
      assert m[|list[0]| + 1..] == rest;
      DecodeFlat(list[1..], tail);
    }
  }

  lemma {:induction false} UpToEmptyIsAll(list: seq<string>)
    ensures UpToEmpty(list) == list <==> "" !in list
  {
    if list != [] && list[0] != "" {
      UpToEmptyIsAll(list[1..]);
      assert list == [list[0]] + list[1..];
    }
  }

  lemma {:induction false} FlatConcat(a: seq<string>, b: seq<string>)
    ensures Flat(a + b) == Flat(a) + Flat(b)
  {
    if a == [] {
      assert a + b == b;
    } else {
      assert (a + b)[1..] == a[1..] + b;
      FlatConcat(a[1..], b);
    }
  }

  // The multi-string m holds exactly these strings at its start.
  ghost predicate Holds(m: string, list: seq<string>) {
    && CStrings(list) && "" !in list
    && |Encode(list)| <= |m| && m[..|Encode(list)|] == Encode(list)
  }

  lemma HoldsDecodes(m: string, list: seq<string>)
    requires Holds(m, list)
    ensures Decode(m) == list
  {
    var tail := m[|Encode(list)|..];
    assert m == Flat(list) + [NUL] + tail;
    DecodeFlat(list, tail);
    UpToEmptyIsAll(list);
  }

  lemma FlatStep(list: seq<string>, i: nat)
    requires i < |list|
    ensures Flat(list[..i + 1]) == Flat(list[..i]) + list[i] + [NUL]
  {
    assert list[..i + 1] == list[..i] + [list[i]];
    FlatConcat(list[..i], [list[i]]);
    assert Flat([list[i]]) == list[i] + [NUL];
  }

  // Inside a multi-string: string i begins where the strings before it end.
  lemma HoldsAtIndex(m: string, list: seq<string>, i: nat)
    requires Holds(m, list) && i <= |list|
    ensures var p := |Flat(list[..i])|;
      && p < |m|
      && (i == |list| ==> m[p] == NUL)
      && (i < |list| ==> IsCString(list[i]) && p + |list[i]| < |m| && m[p..p + |list[i]|] == list[i] && m[p + |list[i]|] == NUL)
  {
    hide Flat;
    FlatConcat(list[..i], list[i..]);
    assert list == list[..i] + list[i..];
    var front, rest, tail := Flat(list[..i]), Flat(list[i..]), m[|Encode(list)|..];
    assert m == Flat(list) + [NUL] + tail;
    if i < |list| {
      FlatFront(list[i..]);
      assert m == front + (list[i] + [NUL] + (Flat(list[i..][1..]) + [NUL] + tail));
      StandsBehind(front, list[i], Flat(list[i..][1..]) + [NUL] + tail);
      assert list[i] in list;
    } else {
      assert list[..i] == list;
    }
  }

  lemma FlatFront(list: seq<string>)
    requires list != []
    ensures Flat(list) == list[0] + [NUL] + Flat(list[1..])
  {
  }

  lemma StandsBehind(a: string, s: string, b: string)
    ensures var m, p := a + (s + [NUL] + b), |a|;
      p + |s| < |m| && m[p..p + |s|] == s && m[p + |s|] == NUL
  {
  }

  // __apxGetMultiSzLength: the characters without the closing NUL, and the strings.
  method GetLength(m: string, ghost list: seq<string>) returns (length: nat, count: nat)
    requires Holds(m, list)
    ensures length == |Flat(list)| && count == |list|
  {
    hide Flat, Holds;
    var p := 0;
    count := 0;
    StringsNotEmpty(m, list, 0);
    FlatNothing(list);
    while m[p] != NUL
      invariant count <= |list| && p == |Flat(list[..count])| < |m|
      invariant m[p] == NUL <==> count == |list|
      decreases |list| - count
    {
      HoldsAtIndex(m, list, count);
      assert IsCString(list[count]);
      FlatStep(list, count);
      ghost var start := p;
      while m[p] != NUL
        invariant start <= p <= start + |list[count]| < |m|
        decreases start + |list[count]| - p
      {
        p := p + 1;
      }
      NulEndsString(m, start, list[count], p);
      p := p + 1;
      count := count + 1;
      StringsNotEmpty(m, list, count);
    }
    assert list[..count] == list;
    return p, count;
  }

  lemma FlatNothing(list: seq<string>)
    ensures Flat(list[..0]) == ""
  {
  }

  lemma NulEndsString(m: string, start: nat, s: string, p: nat)
    requires start <= p <= start + |s| < |m| && m[start..start + |s|] == s && IsCString(s) && m[p] == NUL
    ensures p == start + |s|
  {
    forall k | start <= k < start + |s|
      ensures m[k] != NUL
    {
      assert m[k] == m[start..start + |s|][k - start] && s[k - start] in s;
    }
  }

  lemma StringsNotEmpty(m: string, list: seq<string>, i: nat)
    requires Holds(m, list) && i <= |list|
    ensures |Flat(list[..i])| < |m| && (m[|Flat(list[..i])|] == NUL <==> i == |list|)
  {
    HoldsAtIndex(m, list, i);
    if i < |list| {
      assert list[i] in list;
      var p := |Flat(list[..i])|;
      assert m[p] == m[p..p + |list[i]|][0] == list[i][0];
    }
  }

  // A freshly zeroed block of memory (apxPoolCalloc).
  method Calloc(n: nat) returns (a: array<char>)
    ensures fresh(a) && a.Length == n && forall i :: 0 <= i < n ==> a[i] == NUL
  {
    a := new char[n](_ => NUL);
  }

  // Copying s to the place p of a (AplMoveMemory between distinct blocks).
  method Put(a: array<char>, p: nat, s: string)
    requires p + |s| <= a.Length
    modifies a
    ensures a[..] == old(a[..p]) + s + old(a[p + |s|..])
    ensures a[..p] == old(a[..p]) && a[p..p + |s|] == s && a[p + |s|..] == old(a[p + |s|..])
  {
    forall i | 0 <= i < |s| {
      a[p + i] := s[i];
    }
  }

  // apxMultiSzCombine. The result is filled exactly.
  method Combine(a: Option<string>, b: Option<string>, ghost listA: seq<string>, ghost listB: seq<string>)
    returns (rv: array?<char>, length: nat)
    requires if a.Some? then Holds(a.value, listA) else listA == []
    requires if b.Some? then Holds(b.value, listB) else listB == []
    ensures rv == null <==> a.None? && b.None?
    ensures rv != null ==> fresh(rv) && rv.Length == length && rv[..] == Encode(listA + listB)
  {
    hide Holds, Flat;
    rv, length := null, 0;
    if a.None? && b.None? {
      return;
    }
    FlatOfNothing();
    var la, lb, n := 0, 0, 0;
    if a.Some? {
      la, n := GetLength(a.value, listA);
      FlatPrefix(a.value, listA);
    }
    if b.Some? {
      lb, n := GetLength(b.value, listB);
      FlatPrefix(b.value, listB);
    }
    rv := Calloc(la + lb + 1);
    if la > 0 {
      Put(rv, 0, a.value[..la]);
    }
    assert rv[..la] == Flat(listA) && rv[la + lb] == NUL;
    ghost var front := rv[..la];
    if lb > 0 {
      Put(rv, la, b.value[..lb]);
    }
    length := la + lb + 1;
    FlatConcat(listA, listB);
    assert rv[..la] == front;
    assert rv[la..la + lb] == Flat(listB);
    assert rv[..] == rv[..la] + rv[la..la + lb] + [rv[la + lb]];
  }

  lemma FlatOfNothing()
    ensures Flat([]) == ""
  {
  }

  lemma FlatPrefix(m: string, list: seq<string>)
    requires Holds(m, list)
    ensures |Flat(list)| < |m| && m[..|Flat(list)|] == Flat(list)
  {
    assert m[..|Flat(list)|] == m[..|Encode(list)|][..|Flat(list)|];
  }

  // Reading the combination gives the first list followed by the second.
  lemma CombineDecodes(a: string, b: string, listA: seq<string>, listB: seq<string>)
    requires Holds(a, listA) && Holds(b, listB)
    ensures Decode(Encode(listA + listB)) == Decode(a) + Decode(b)
  {
    HoldsDecodes(a, listA);
    HoldsDecodes(b, listB);
    var both := listA + listB;
    assert Encode(both) == Flat(both) + [NUL] + "";
    DecodeFlat(both, "");
    UpToEmptyIsAll(both);
  }

  function TotalLength(args: seq<string>): nat {
    if args == [] then 0 else |args[0]| + TotalLength(args[1..])
  }

  lemma {:induction false} FlatLength(args: seq<string>)
    ensures |Flat(args)| == TotalLength(args) + |args|
  {
    if args != [] {
      FlatLength(args[1..]);
    }
  }

  lemma {:induction false} TotalLengthStep(args: seq<string>, i: nat)
    requires i < |args|
    ensures TotalLength(args[..i + 1]) == TotalLength(args[..i]) + |args[i]|
  {
    if i == 0 {
      assert args[..1] == [args[0]] && args[..0] == [];
      assert TotalLength([args[0]]) == |args[0]| + TotalLength([]);
    } else {
      TotalLengthStep(args[1..], i - 1);
      assert args[..i + 1][1..] == args[1..][..i] && args[..i][1..] == args[1..][..i - 1];
    }
  }

  // apxArrayToMultiSzA. Every cell of the allocation is written, the last two with NUL.
  method FromArray(args: seq<string>) returns (rv: array?<char>)
    requires CStrings(args)
    ensures args == [] ==> rv == null
    ensures args != [] ==> rv != null && fresh(rv) && rv[..] == Encode(args) + [NUL]
  {
    if args == [] {
      return null;
    }
    var l, i := 0, 0;
    while i < |args|
      invariant i <= |args| && l == TotalLength(args[..i])
    {
      TotalLengthStep(args, i);
      l := l + |args[i]|;
      i := i + 1;
    }
    assert args[..i] == args;
    l := l + |args| + 2;
    FlatLength(args);
    hide Flat, TotalLength;
    rv := new char[l];
    var p := 0;
    i := 0;
    FlatNothing(args);
    while i < |args|
      invariant i <= |args| && p == |Flat(args[..i])| <= |Flat(args)| && rv.Length == |Flat(args)| + 2
      invariant rv[..p] == Flat(args[..i])
    {
      FlatStep(args, i);
      FlatPrefixLength(args, i + 1);
      ghost var before := rv[..p];
      Put(rv, p, args[i]);
      p := p + |args[i]|;
      rv[p] := NUL;
      p := p + 1;
      assert rv[..p] == before + args[i] + [NUL];
      i := i + 1;
    }
    assert args[..i] == args;
    rv[p] := NUL;
    p := p + 1;
    rv[p] := NUL;
    assert rv[..] == rv[..p - 1] + [NUL] + [NUL];
  }

  lemma FlatPrefixLength(list: seq<string>, i: nat)
    requires i <= |list|
    ensures |Flat(list[..i])| <= |Flat(list)|
  {
    FlatConcat(list[..i], list[i..]);
    assert list == list[..i] + list[i..];
  }

  // The packed array reads back as the array exactly when no argument is empty.
  lemma PackedArrayDecodesIff(args: seq<string>)
    requires CStrings(args)
    ensures Decode(Encode(args) + [NUL]) == args <==> "" !in args
  {
    assert Encode(args) + [NUL] == Flat(args) + [NUL] + [NUL];
    DecodeFlat(args, [NUL]);
    UpToEmptyIsAll(args);
  }

  // A slot of the pointer array: the address of a string in the copied characters.
  datatype Slot = Unset | Null | At(p: nat)

  // apxMultiSzToArray. Slot i leads to string i. The null goes one slot too far: the slot
  // behind the last string stays as it was allocated.
  method ToArray(m: string, ghost list: seq<string>) returns (n: nat, slots: array?<Slot>, chars: array?<char>)
    requires Holds(m, list)
    ensures n == |list| && (list == [] ==> slots == null && chars == null)
    ensures list != [] ==> slots != null && chars != null && fresh(slots) && fresh(chars)
    ensures list != [] ==> chars[..] == Encode(list) && slots.Length == n + 2
    ensures list != [] ==> forall i :: 0 <= i < n ==> slots[i] == At(|Flat(list[..i])|)
    ensures list != [] ==> slots[n] == Unset && slots[n + 1] == Null
  {
    hide Flat, Holds, Encode;
    slots, chars := null, null;
    var l;
    l, n := GetLength(m, list);
    EmptyIffFlatEmpty(list);
    if n == 0 || l == 0 {
      return;
    }
    slots := new Slot[n + 2](_ => Unset);
    chars := Calloc(l + 1);
    EncodingFits(m, list);
    Put(chars, 0, m[..l + 1]);
    assert chars[..] == m[..l + 1] == Encode(list);
    var p, i := 0, 0;
    FlatNothing(list);
    HoldsInCopy(chars[..], list);
    while i < n
      invariant i <= n && p == |Flat(list[..i])| && chars[..] == Encode(list)
      invariant forall k :: 0 <= k < i ==> slots[k] == At(|Flat(list[..k])|)
      invariant forall k :: i <= k < n + 2 ==> slots[k] == Unset
    {
      slots[i] := At(p);
      p := AfterString(chars, p, list, i);
      i := i + 1;
    }
    i := i + 1;
    slots[i] := Null;
  }

  // The address behind the terminator of string i.
  method AfterString(a: array<char>, p0: nat, ghost list: seq<string>, ghost i: nat) returns (p: nat)
    requires Holds(a[..], list) && i < |list| && p0 == |Flat(list[..i])|
    ensures p == |Flat(list[..i + 1])|
  {
    hide Flat, Holds;
    HoldsAtIndex(a[..], list, i);
    p := p0;
    while a[p] != NUL
      invariant p0 <= p <= p0 + |list[i]| < a.Length
      decreases p0 + |list[i]| - p
    {
      p := p + 1;
    }
    NulEndsString(a[..], p0, list[i], p);
    FlatStep(list, i);
    p := p + 1;
  }

  lemma EmptyIffFlatEmpty(list: seq<string>)
    ensures |Flat(list)| == 0 <==> list == []
  {
  }

  lemma EncodingFits(m: string, list: seq<string>)
    requires Holds(m, list)
    ensures |Encode(list)| == |Flat(list)| + 1 <= |m| && m[..|Flat(list)| + 1] == Encode(list)
    ensures CStrings(list) && "" !in list
  {
  }

  lemma HoldsInCopy(copy: string, list: seq<string>)
    requires copy == Encode(list) && CStrings(list) && "" !in list
    ensures Holds(copy, list)
  {
    assert copy[..|copy|] == copy;
  }

  // ---- Lines for an edit control ----

  function Lines(list: seq<string>): string {
    if list == [] then "" else list[0] + "\r\n" + Lines(list[1..])
  }

  // Each character as apxCRLFToMsz writes it.
  function FoldLines(s: string): (r: string)
    ensures |r| <= |s|
  {
    if s == "" then ""
    else (if s[0] == '\r' then [NUL] else if s[0] == '\n' then "" else [s[0]]) + FoldLines(s[1..])
  }

  lemma {:induction false} FoldConcat(a: string, b: string)
    ensures FoldLines(a + b) == FoldLines(a) + FoldLines(b)
  {
    if a == "" {
      assert a + b == b;
    } else {
      assert (a + b)[1..] == a[1..] + b;
      FoldConcat(a[1..], b);
    }
  }

  function Zeros(n: nat): string {
    seq(n, _ => NUL)
  }

  lemma LinesStep(list: seq<string>, i: nat)
    requires i < |list|
    ensures Lines(list[..i + 1]) == Lines(list[..i]) + list[i] + "\r\n"
  {
    assert list[..i + 1] == list[..i] + [list[i]];
    LinesConcat(list[..i], [list[i]]);
    assert Lines([list[i]]) == list[i] + "\r\n";
  }

  lemma {:induction false} LinesConcat(a: seq<string>, b: seq<string>)
    ensures Lines(a + b) == Lines(a) + Lines(b)
  {
    if a == [] {
      assert a + b == b;
    } else {
      assert (a + b)[1..] == a[1..] + b;
      LinesConcat(a[1..], b);
    }
  }

  lemma {:induction false} LinesLength(list: seq<string>)
    ensures |Lines(list)| == |Flat(list)| + |list|
  {
    if list != [] {
      LinesLength(list[1..]);
    }
  }

  // Where line i stands in the text.
  lemma LineAt(list: seq<string>, i: nat)
    requires i < |list|
    ensures var b := |Lines(list[..i])|;
      && |Lines(list[..i + 1])| == b + |list[i]| + 2 <= |Lines(list)|
      && Lines(list)[b..b + |list[i]|] == list[i]
      && Lines(list)[b + |list[i]|] == '\r' && Lines(list)[b + |list[i]| + 1] == '\n'
  {
    hide Lines;
    LinesStep(list, i);
    LinesConcat(list[..i + 1], list[i + 1..]);
    assert list == list[..i + 1] + list[i + 1..];
    LineBehind(Lines(list[..i]), list[i], Lines(list[i + 1..]));
  }

  lemma LineBehind(a: string, s: string, b: string)
    ensures var m, p := a + s + "\r\n" + b, |a|;
      |a + s + "\r\n"| == p + |s| + 2 <= |m| && m[p..p + |s|] == s && m[p + |s|] == '\r' && m[p + |s| + 1] == '\n'
  {
  }

  // The j-th character of string i, or its end, in the multi-string,
  lemma InStrings(m: string, list: seq<string>, i: nat, j: nat)
    requires Holds(m, list) && i < |list| && j <= |list[i]|
    ensures var p := |Flat(list[..i])| + j;
      && p < |m| && (m[p] == NUL <==> j == |list[i]|) && (j < |list[i]| ==> m[p] == list[i][j])
      && |Flat(list[..i + 1])| == |Flat(list[..i])| + |list[i]| + 1
  {
    HoldsAtIndex(m, list, i);
    FlatStep(list, i);
    hide Flat, Holds;
    if j < |list[i]| {
      CharacterOf(m, |Flat(list[..i])|, list[i], j);
      assert list[i][j] in list[i];
    }
  }

  // and in the text.
  lemma InLines(list: seq<string>, i: nat, j: nat)
    requires i < |list| && j <= |list[i]|
    ensures var b, text := |Lines(list[..i])| + j, Lines(list);
      && b + 1 < |text| && |Lines(list[..i + 1])| == |Lines(list[..i])| + |list[i]| + 2
      && (if j < |list[i]| then text[b] == list[i][j] else text[b] == '\r' && text[b + 1] == '\n')
  {
    LineAt(list, i);
    hide Lines;
    if j < |list[i]| {
      CharacterOf(Lines(list), |Lines(list[..i])|, list[i], j);
    }
  }

  // apxMszToCRLFW: every string becomes a line; two zeroed cells are left at the end.
  method ToCrLf(m: string, ghost list: seq<string>) returns (rv: array<char>)
    requires Holds(m, list)
    ensures fresh(rv) && rv[..] == Lines(list) + Zeros(2)
  {
    hide Flat, Lines, Holds;
    var l, c := GetLength(m, list);
    rv := Calloc(l + c + 2);
    LinesLength(list);
    ghost var text := Lines(list);
    var p, b := 0, 0;
    ghost var i, j := 0, 0;
    LinesNothing(list);
    FlatNothing(list);
    assert list[..|list|] == list;
    while c > 0
      invariant 0 <= c && i + c == |list| && rv.Length == |text| + 2
      invariant p == |Flat(list[..i])| + j && b == |Lines(list[..i])| + j <= |text|
      invariant if i < |list| then j <= |list[i]| else j == 0
      invariant rv[..b] == text[..b]
      invariant forall k :: b <= k < rv.Length ==> rv[k] == NUL
      decreases |list| - i, if i < |list| then |list[i]| - j else 0
    {
      InStrings(m, list, i, j);
      InLines(list, i, j);
      if m[p] != NUL {
        rv[b] := m[p];
        b := b + 1;
        j := j + 1;
      } else {
        rv[b] := '\r';
        rv[b + 1] := '\n';
        b := b + 2;
        c := c - 1;
        i, j := i + 1, 0;
      }
      p := p + 1;
    }
    assert rv[..] == rv[..b] + Zeros(2);
  }

  lemma CharacterOf(m: string, start: nat, s: string, j: nat)
    requires start + |s| <= |m| && m[start..start + |s|] == s && j < |s|
    ensures m[start + j] == s[j]
  {
    assert m[start..start + |s|][j] == m[start + j];
  }

  lemma LinesNothing(list: seq<string>)
    ensures Lines(list[..0]) == ""
  {
  }

  lemma FoldStep(s: string, c: nat)
    requires c < |s|
    ensures FoldLines(s[..c + 1]) ==
      FoldLines(s[..c]) + if s[c] == '\r' then [NUL] else if s[c] == '\n' then "" else [s[c]]
  {
    assert s[..c + 1] == s[..c] + [s[c]];
    FoldConcat(s[..c], [s[c]]);
    assert FoldLines([s[c]][1..]) == "";
  }

  // apxCRLFToMszW. No cell outside the l + 2 allocated ones is written, and the size
  // reported is that of the text with its two closing NULs.
  method FromCrLf(s: string) returns (rv: array<char>, bytes: nat)
    requires IsCString(s)
    ensures fresh(rv) && rv.Length == |s| + 2 && rv[..] == FoldLines(s) + Zeros(rv.Length - |FoldLines(s)|)
    ensures bytes == (|FoldLines(s)| + 2) * 2
  {
    hide FoldLines;
    var l := |s|;
    rv := Calloc(l + 2);
    var c, n := 0, 0;
    FoldOfNothing(s);
    while c < l
      invariant n <= c <= l && rv[..n] == FoldLines(s[..c])
      invariant forall k :: n <= k < rv.Length ==> rv[k] == NUL
    {
      FoldStep(s, c);
      ghost var before := rv[..n];
      if s[c] == '\r' {
        rv[n] := NUL;
        n := n + 1;
        assert rv[..n] == before + [NUL];
      } else if s[c] != '\n' {
        rv[n] := s[c];
        n := n + 1;
        assert rv[..n] == before + [s[c]];
      }
      c := c + 1;
    }
    assert s[..l] == s;
    bytes := (n + 2) * 2;
    assert rv[..] == rv[..n] + Zeros(rv.Length - n);
  }

  lemma FoldOfNothing(s: string)
    ensures FoldLines(s[..0]) == ""
  {
  }

  predicate NoLineBreak(s: string) {
    '\r' !in s && '\n' !in s
  }

  lemma {:induction false} FoldKeepsPlain(s: string)
    ensures FoldLines(s) == s <==> NoLineBreak(s)
    ensures !NoLineBreak(s) ==> NonNul(FoldLines(s)) < |s|
    ensures NonNul(FoldLines(s)) <= |s|
  {
    if s != "" {
      FoldKeepsPlain(s[1..]);
      assert s == [s[0]] + s[1..];
      if s[0] == '\n' {
        assert FoldLines(s) == FoldLines(s[1..]);
      } else {
        assert FoldLines(s)[1..] == FoldLines(s[1..]);
      }
    }
  }

  function NonNul(m: string): nat {
    if m == "" then 0 else (if m[0] != NUL then 1 else 0) + NonNul(m[1..])
  }

  function Strip(list: seq<string>): seq<string> {
    if list == [] then [] else [FoldLines(list[0])] + Strip(list[1..])
  }

  lemma {:induction false} NonNulConcat(a: string, b: string)
    ensures NonNul(a + b) == NonNul(a) + NonNul(b)
  {
    if a == "" {
      assert a + b == b;
    } else {
      assert (a + b)[1..] == a[1..] + b;
      NonNulConcat(a[1..], b);
    }
  }

  lemma {:induction false} NonNulOfPlain(s: string)
    requires IsCString(s)
    ensures NonNul(s) == |s|
  {
    if s != "" {
      assert s == [s[0]] + s[1..];
      NonNulOfPlain(s[1..]);
    }
  }

  // No reader sees more characters than there are.
  lemma {:induction false} DecodeWeighsLess(m: string)
    ensures TotalLength(Decode(m)) <= NonNul(m)
    decreases |m|
  {
    var k := FirstNul(m);
    if k > 0 {
      assert m == m[..k] + m[k..];
      NonNulConcat(m[..k], m[k..]);
      NonNulOfPlain(m[..k]);
      if k < |m| {
        DecodeWeighsLess(m[k + 1..]);
        assert m[k..] == [m[k]] + m[k + 1..];
        assert Decode(m)[1..] == Decode(m[k + 1..]);
      } else {
        assert Decode(m) == [m[..k]];
        assert TotalLength(Decode(m)[1..]) == 0;
      }
    }
  }

  lemma {:induction false} NonNulOfZeros(n: nat)
    ensures NonNul(Zeros(n)) == 0
  {
    if n > 0 {
      assert Zeros(n)[1..] == Zeros(n - 1);
      NonNulOfZeros(n - 1);
    }
  }

  // Folding the lines again gives the strings without their line breaks.
  lemma {:induction false} FoldOfLines(list: seq<string>)
    ensures FoldLines(Lines(list)) == Flat(Strip(list))
  {
    if list != [] {
      FoldOfLines(list[1..]);
      FoldConcat(list[0] + "\r\n", Lines(list[1..]));
      FoldConcat(list[0], "\r\n");
      assert FoldLines("\r\n"[1..]) == "" && FoldLines("\r\n") == [NUL];
      assert Strip(list)[1..] == Strip(list[1..]);
    }
  }

  lemma {:induction false} StripKeepsPlain(list: seq<string>)
    requires forall i :: 0 <= i < |list| ==> NoLineBreak(list[i])
    ensures Strip(list) == list
  {
    if list != [] {
      FoldKeepsPlain(list[0]);
      StripKeepsPlain(list[1..]);
      assert list == [list[0]] + list[1..];
    }
  }

  lemma {:induction false} StripWeighsLess(list: seq<string>)
    ensures NonNul(Flat(Strip(list))) <= TotalLength(list)
    ensures (exists i :: 0 <= i < |list| && !NoLineBreak(list[i])) ==> NonNul(Flat(Strip(list))) < TotalLength(list)
  {
    if list != [] {
      var head, rest := FoldLines(list[0]), Flat(Strip(list[1..]));
      assert Strip(list)[1..] == Strip(list[1..]);
      FoldKeepsPlain(list[0]);
      StripWeighsLess(list[1..]);
      NonNulConcat(head + [NUL], rest);
      NonNulConcat(head, [NUL]);
      assert NonNul([NUL][1..]) == 0;
      if i :| 0 <= i < |list| && !NoLineBreak(list[i]) {
        assert i > 0 ==> list[1..][i - 1] == list[i];
      }
    }
  }

  lemma PlainLinesComeBack(list: seq<string>, n: nat)
    requires CStrings(list) && "" !in list && n > 0
    requires forall i :: 0 <= i < |list| ==> NoLineBreak(list[i])
    ensures Decode(FoldLines(Lines(list)) + Zeros(n)) == list
  {
    hide Decode, FoldLines, Lines, Flat;
    FoldOfLines(list);
    StripKeepsPlain(list);
    assert Zeros(n) == [NUL] + Zeros(n - 1);
    assert Flat(list) + Zeros(n) == Flat(list) + [NUL] + Zeros(n - 1);
    DecodeFlat(list, Zeros(n - 1));
    UpToEmptyIsAll(list);
  }

  lemma BrokenLinesDoNot(list: seq<string>, n: nat)
    requires exists i :: 0 <= i < |list| && !NoLineBreak(list[i])
    ensures Decode(FoldLines(Lines(list)) + Zeros(n)) != list
  {
    hide Decode, FoldLines, Lines, Flat, NonNul, TotalLength;
    FoldOfLines(list);
    StripWeighsLess(list);
    DecodeWeighsLess(FoldLines(Lines(list)) + Zeros(n));
    NonNulConcat(FoldLines(Lines(list)), Zeros(n));
    NonNulOfZeros(n);
  }

  // Turning a multi-string into lines and back gives the same strings exactly when none of
  // them contains a line break character. The n zeros are those that FromCrLf leaves.
  lemma LinesRoundTripIff(list: seq<string>, n: nat)
    requires CStrings(list) && "" !in list && n > 0
    ensures Decode(FoldLines(Lines(list)) + Zeros(n)) == list <==> forall i :: 0 <= i < |list| ==> NoLineBreak(list[i])
  {
    if forall i :: 0 <= i < |list| ==> NoLineBreak(list[i]) {
      PlainLinesComeBack(list, n);
    } else {
      BrokenLinesDoNot(list, n);
    }
  }

  lemma {:induction false} LinesAreCString(list: seq<string>)
    requires CStrings(list)
    ensures IsCString(Lines(list))
  {
    if list != [] {
      LinesAreCString(list[1..]);
    }
  }

  // The two conversions one after the other, on what a multi-string holds.
  method ThroughCrLf(m: string, ghost list: seq<string>) returns (rv: array<char>)
    requires Holds(m, list)
    ensures fresh(rv) && (Decode(rv[..]) == list <==> forall i :: 0 <= i < |list| ==> NoLineBreak(list[i]))
  {
    hide Decode, FoldLines, Lines, Flat, Encode;
    var text := ToCrLf(m, list);
    assert text[..text.Length - 2] == Lines(list);
    LinesAreCString(list);
    var bytes;
    rv, bytes := FromCrLf(text[..text.Length - 2]);
    LinesRoundTripIff(list, rv.Length - |FoldLines(Lines(list))|);
  }
}

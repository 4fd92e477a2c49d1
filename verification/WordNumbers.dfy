// Number codecs of utils.c on 32-bit words: apxUltohex, apxStrToul and apxAtoulW.
module WordNumbers {
  import opened Numerals
  import opened Prelude

  // ---- Hexadecimal ----

  // _st_hex[LO_NIBLE(n)]
  function HexChar(n: bv32): char {
    var v := n & 0xF;
    if v == 0 then '0' else if v == 1 then '1' else if v == 2 then '2' else if v == 3 then '3'
    else if v == 4 then '4' else if v == 5 then '5' else if v == 6 then '6' else if v == 7 then '7'
    else if v == 8 then '8' else if v == 9 then '9' else if v == 10 then 'a' else if v == 11 then 'b'
    else if v == 12 then 'c' else if v == 13 then 'd' else if v == 14 then 'e' else 'f'
  }

  // The switch of apxStrToul.
  function HexDigit(c: char): Option<bv32> {
    match c
    case '0' => Some(0) case '1' => Some(1) case '2' => Some(2) case '3' => Some(3)
    case '4' => Some(4) case '5' => Some(5) case '6' => Some(6) case '7' => Some(7)
    case '8' => Some(8) case '9' => Some(9)
    case 'a' => Some(10) case 'A' => Some(10) case 'b' => Some(11) case 'B' => Some(11)
    case 'c' => Some(12) case 'C' => Some(12) case 'd' => Some(13) case 'D' => Some(13)
    case 'e' => Some(14) case 'E' => Some(14) case 'f' => Some(15) case 'F' => Some(15)
    case _ => None
  }

  function Nibble(n: bv32): bv32 {
    n & 0xF
  }

  lemma HexDigitOfChar(n: bv32)
    ensures HexDigit(HexChar(n)) == Some(Nibble(n))
    ensures HexChar(n) != 'x' && HexChar(n) != NUL
  {
  }

  // n >>= 4
  function DropDigit(n: bv32): bv32 {
    n >> 4
  }

  // The lowest count digits of n, the most significant first.
  function HexDigits(n: bv32, count: nat): (t: string)
    ensures |t| == count
  {
    if count == 0 then "" else HexDigits(DropDigit(n), count - 1) + [HexChar(n)]
  }

  lemma HexDigitsStep(n: bv32, count: nat)
    requires count > 0
    ensures HexDigits(n, count) == HexDigits(DropDigit(n), count - 1) + [HexChar(n)]
  {
  }

  // What the memory from the buffer on holds after a call that was told length cells.
  function HexWritten(m: string, n: bv32, length: nat): (r: string)
    requires |m| > 0 && (length >= 10 ==> |m| >= 11)
    ensures |r| == |m|
  {
    if length < 10 then m[0 := NUL] else "0x" + HexDigits(n, 8) + [NUL] + m[11..]
  }

  // apxUltohex on the memory that begins at the buffer; length is what the caller says of
  // its size. Eleven cells are written, one more than the length that the function checks for.
  method UlToHex(n0: bv32, memory: array<char>, length: nat) returns (ok: bool)
    requires memory.Length > 0 && (length >= 10 ==> memory.Length >= 11)
    modifies memory
    ensures ok <==> length >= 10
    ensures memory[..] == HexWritten(old(memory[..]), n0, length)
  {
    hide HexChar, HexDigits, DropDigit;
    ghost var m := memory[..];
    memory[0] := NUL;
    if length < 10 {
      return false;
    }
    var n := n0;
    var p: int := 10;
    memory[p] := NUL;
    p := p - 1;
    var i := 0;
    while i < 8
      invariant 0 <= i <= 8 && p == 9 - i
      invariant HexDigits(n0, 8) == HexDigits(n, 8 - i) + memory[p + 1..10]
      invariant memory[10] == NUL && memory[11..] == m[11..]
    {
      ghost var done := memory[p + 1..10];
      HexDigitsStep(n, 8 - i);
      memory[p] := HexChar(n);
      assert memory[p..10] == [HexChar(n)] + done;
      p := p - 1;
      n := DropDigit(n);
      i := i + 1;
    }
    HexDigitsNone(n);
    memory[p] := 'x';
    p := p - 1;
    memory[p] := '0';
    assert memory[..] == "0x" + memory[2..10] + [NUL] + memory[11..];
    return true;
  }

  // The call keeps to the cells it was told about, whatever is in memory, exactly when the
  // length is neither 0 nor 10.
  lemma KeepsToLengthIff(n: bv32, length: nat)
    ensures length != 0 && length != 10 <==>
      forall m: string :: |m| >= 11 && length <= |m| ==> HexWritten(m, n, length)[length..] == m[length..]
  {
    hide HexDigits;
    if length == 0 || length == 10 {
      var m := "xxxxxxxxxxx";
      assert m[length..][0] == 'x' && HexWritten(m, n, length)[length..][0] == NUL;
    }
  }

  // With a length of 10, cell 10 alone tells.
  lemma TenCellsOverrun(m: string, n: bv32)
    requires |m| >= 11
    ensures HexWritten(m, n, 10)[10] == NUL && HexWritten(m, n, 10)[11..] == m[11..]
    ensures HexWritten(m, n, 10)[10..] == m[10..] <==> m[10] == NUL
  {
    hide HexDigits;
    var r := HexWritten(m, n, 10);
    assert r[10..] == [r[10]] + r[11..] && m[10..] == [m[10]] + m[11..];
  }

  // A buffer of the ten cells that the check accepts: the cell behind it is overwritten.
  method HexOverrunWitness() returns (memory: array<char>, ok: bool)
    ensures fresh(memory) && memory.Length == 11 && ok && memory[10] != 'x'
  {
    memory := new char[11](_ => 'x');
    TenCellsOverrun(memory[..], 0);
    ok := UlToHex(0, memory, 10);
    assert memory[10] == memory[..][10];
  }

  // Four bits for every digit read.
  function Shift(used: nat): (sh: bv32)
    requires used <= 8
    ensures sh <= 32
  {
    match used
    case 0 => 0 case 1 => 4 case 2 => 8 case 3 => 12 case 4 => 16
    case 5 => 20 case 6 => 24 case 7 => 28 case _ => 32
  }

  lemma ShiftStep(used: nat)
    requires used < 8
    ensures Shift(used + 1) == Shift(used) + 4 && Shift(used) <= 28
  {
  }

  // The low sh bits.
  function Mask(sh: bv32): bv32
    requires sh <= 32
  {
    (1 << sh) - 1
  }

  // rv |= rv + (v << sh)
  function AddDigit(rv: bv32, v: bv32, sh: bv32): bv32
    requires sh <= 32
  {
    rv | (rv + (v << sh))
  }

  function Skip(n: bv32, sh: bv32): bv32
    requires sh <= 32
  {
    n >> sh
  }

  function BitsBelow(n: bv32, sh: bv32): bv32
    requires sh <= 32
  {
    n & Mask(sh)
  }

  // The accumulation is plain addition, and it puts the next digit of n in place.
  lemma OrIsPlus(n: bv32, sh: bv32)
    requires sh <= 28
    ensures var rv, v := BitsBelow(n, sh), Skip(n, sh) & 0xF;
      AddDigit(rv, v, sh) == rv + (v << sh) == BitsBelow(n, sh + 4)
  {
  }

  lemma SkipTwice(n: bv32, sh: bv32)
    requires sh <= 28
    ensures DropDigit(Skip(n, sh)) == Skip(n, sh + 4)
  {
  }

  // Reading the digits t from the right, after used digits have given rv.
  function Accumulate(t: string, rv: bv32, used: nat): bv32
    requires |t| + used <= 8
    decreases |t|
  {
    if t == "" then rv
    else
      var d := HexDigit(t[|t| - 1]);
      if d.None? then 0
      else Accumulate(t[..|t| - 1], AddDigit(rv, d.value, Shift(used)), used + 1)
  }

  lemma AccumulateStep(t: string, n: bv32, rv: bv32, used: nat)
    requires |t| + 1 + used <= 8
    ensures Accumulate(t + [HexChar(n)], rv, used) == Accumulate(t, AddDigit(rv, Nibble(n), Shift(used)), used + 1)
  {
    hide HexChar, HexDigit, Shift, AddDigit, Nibble;
    HexDigitOfChar(n);
    assert (t + [HexChar(n)])[..|t|] == t;
  }

  // One more digit of n has been read.
  lemma DigitStep(n: bv32, used: nat)
    requires used < 8
    ensures AddDigit(BitsBelow(n, Shift(used)), Nibble(Skip(n, Shift(used))), Shift(used)) == BitsBelow(n, Shift(used + 1))
    ensures DropDigit(Skip(n, Shift(used))) == Skip(n, Shift(used + 1))
  {
    ShiftStep(used);
    hide Shift;
    OrIsPlus(n, Shift(used));
    SkipTwice(n, Shift(used));
  }

  // Reading the digits that writing put there.
  lemma {:induction false} AccumulateDigits(n: bv32, count: nat, used: nat)
    requires count + used == 8
    ensures Accumulate(HexDigits(Skip(n, Shift(used)), count), BitsBelow(n, Shift(used)), used) == BitsBelow(n, Shift(8))
    decreases count
  {
    hide HexChar, HexDigit, HexDigits, Accumulate, Shift, AddDigit, Nibble, Skip, BitsBelow, DropDigit;
    var rest := Skip(n, Shift(used));
    if count > 0 {
      DigitStep(n, used);
      HexDigitsStep(rest, count);
      AccumulateStep(HexDigits(DropDigit(rest), count - 1), rest, BitsBelow(n, Shift(used)), used);
      AccumulateDigits(n, count - 1, used + 1);
    } else {
      HexDigitsNone(rest);
      AccumulateNone(BitsBelow(n, Shift(used)), used);
    }
  }

  lemma HexDigitsNone(n: bv32)
    ensures HexDigits(n, 0) == ""
  {
  }

  lemma AccumulateNone(rv: bv32, used: nat)
    requires used <= 8
    ensures Accumulate("", rv, used) == rv
  {
  }

  lemma AllBits(n: bv32)
    ensures BitsBelow(n, Shift(8)) == n && BitsBelow(n, Shift(0)) == 0 && Skip(n, Shift(0)) == n
  {
  }

  lemma AccumulateUndoesHexDigits(n: bv32)
    ensures Accumulate(HexDigits(n, 8), 0, 0) == n
  {
    hide HexDigits, Accumulate, BitsBelow, Skip;
    AllBits(n);
    AccumulateDigits(n, 8, 0);
  }

  const LOWER := "0123456789abcdef"
  const UPPER := "0123456789ABCDEF"

  // The value of a digit is its place in the list of digits, in upper or lower case.
  lemma HexDigitAt(i: nat)
    requires i < 16
    ensures HexDigit(LOWER[i]) == HexDigit(UPPER[i]) == Some(i as bv32)
  {
    match i
    case 0 => case 1 => case 2 => case 3 => case 4 => case 5 => case 6 => case 7 =>
    case 8 => case 9 => case 10 => case 11 => case 12 => case 13 => case 14 => case 15 =>
  }

  lemma HexCharIs(n: bv32, i: nat)
    requires i < 16 && Nibble(n) == i as bv32
    ensures HexChar(n) == LOWER[i]
  {
    match i
    case 0 => case 1 => case 2 => case 3 => case 4 => case 5 => case 6 => case 7 =>
    case 8 => case 9 => case 10 => case 11 => case 12 => case 13 => case 14 => case 15 =>
  }

  lemma HexDigitIff(c: char)
    ensures HexDigit(c).Some? <==> c in LOWER || c in UPPER
    ensures HexDigit(c).Some? ==> HexDigit(c).value < 16
  {
    if HexDigit(c).Some? {
      var v := HexDigit(c).value;
      assert v < 16;
      var i := v as nat;
      assert c == LOWER[i] || c == UPPER[i];
    } else {
      forall i | 0 <= i < 16
        ensures c != LOWER[i] && c != UPPER[i]
      {
        HexDigitAt(i);
      }
    }
  }

  predicate AreHex(t: string) {
    forall i :: 0 <= i < |t| ==> t[i] in LOWER || t[i] in UPPER
  }

  // The number that hexadecimal digits denote, read from the left, on words.
  function HexValue(t: string): bv32 {
    if t == "" then 0
    else
      var d := HexDigit(t[|t| - 1]);
      Times16(HexValue(t[..|t| - 1]), if d.None? then 0 else d.value)
  }

  lemma DigitIsAdded(rv: bv32, v: bv32, sh: bv32)
    requires sh <= 28 && v < 16 && rv == BitsBelow(rv, sh)
    ensures AddDigit(rv, v, sh) == rv | (v << sh)
    ensures BitsBelow(rv | (v << sh), sh + 4) == rv | (v << sh)
  {
  }

  // v as the digit, or the digits, behind which used digits stand.
  function Placed(v: bv32, used: nat): bv32
    requires used <= 8
  {
    v << Shift(used)
  }

  function Times16(h: bv32, v: bv32): bv32 {
    h * 16 + v
  }

  lemma PlacedSum(front: bv32, v: bv32, used: nat)
    requires used < 8 && v < 16
    ensures Placed(v, used) | Placed(front, used + 1) == Placed(Times16(front, v), used)
  {
    match used
    case 0 => case 1 => case 2 => case 3 => case 4 => case 5 => case 6 => case 7 =>
  }

  // The number h in front of the used digits rv.
  function InFront(h: bv32, rv: bv32, used: nat): bv32
    requires used <= 8
  {
    rv | Placed(h, used)
  }

  lemma InFrontMoves(front: bv32, rv: bv32, v: bv32, used: nat)
    requires used < 8 && v < 16
    ensures InFront(front, rv | Placed(v, used), used + 1) == InFront(Times16(front, v), rv, used)
  {
    hide Shift, Placed, Times16;
    PlacedSum(front, v, used);
  }

  lemma PutInPlace(rv: bv32, front: bv32, v: bv32, used: nat)
    requires used < 8 && v < 16 && rv == BitsBelow(rv, Shift(used))
    ensures var more := AddDigit(rv, v, Shift(used));
      && more == BitsBelow(more, Shift(used + 1))
      && InFront(front, more, used + 1) == InFront(Times16(front, v), rv, used)
  {
    ShiftStep(used);
    hide Shift, BitsBelow, AddDigit, InFront, Times16;
    DigitIsAdded(rv, v, Shift(used));
    InFrontMoves(front, rv, v, used);
  }

  lemma AreHexStep(t: string)
    requires t != ""
    ensures AreHex(t) <==> AreHex(t[..|t| - 1]) && (t[|t| - 1] in LOWER || t[|t| - 1] in UPPER)
  {
  }

  lemma NothingInFront(rv: bv32, used: nat)
    requires used <= 8
    ensures InFront(0, rv, used) == rv && AreHex("")
  {
  }

  lemma AloneInFront(h: bv32)
    ensures InFront(h, 0, 0) == h
  {
  }

  // The digits read from the right, each or-ed into its place, give the number that they
  // denote; any other character among them makes it 0.
  lemma {:induction false} AccumulateIs(t: string, rv: bv32, used: nat)
    requires |t| + used <= 8 && rv == BitsBelow(rv, Shift(used))
    ensures Accumulate(t, rv, used) == if AreHex(t) then InFront(HexValue(t), rv, used) else 0
    decreases |t|
  {
    hide HexDigit, Shift, AddDigit, BitsBelow, AreHex, InFront, Times16;
    if t == "" {
      NothingInFront(rv, used);
    } else {
      var front, last := t[..|t| - 1], t[|t| - 1];
      HexDigitIff(last);
      AreHexStep(t);
      if HexDigit(last).Some? {
        var v := HexDigit(last).value;
        PutInPlace(rv, HexValue(front), v, used);
        AccumulateIs(front, AddDigit(rv, v, Shift(used)), used + 1);
      }
    }
  }

  // The number that hexadecimal digits denote; no number is read from any other text.
  function ValueRead(t: string): bv32 {
    if AreHex(t) then HexValue(t) else 0
  }

  lemma ReadIsValue(t: string)
    requires |t| <= 8
    ensures Accumulate(t, 0, 0) == ValueRead(t)
  {
    hide Accumulate, HexValue, InFront;
    AllBits(0);
    AccumulateIs(t, 0, 0);
    AloneInFront(HexValue(t));
  }

  // Where the search for the 'x' stops: at the end, at an 'x', or after a '0'.
  function XStop(s: string, p: nat): (r: nat)
    requires 0 < p <= |s|
    ensures p <= r <= |s|
    decreases |s| - p
  {
    if p == |s| || s[p] == 'x' || s[p - 1] == '0' then p else XStop(s, p + 1)
  }

  // Which characters stopped the search, and which did not.
  lemma {:induction false} XStopIs(s: string, p: nat)
    requires 0 < p <= |s|
    ensures var r := XStop(s, p);
      && (r == |s| || s[r] == 'x' || s[r - 1] == '0')
      && (forall k :: p <= k < r ==> s[k] != 'x') && (forall k :: p - 1 <= k < r - 1 ==> s[k] != '0')
    decreases |s| - p
  {
    if p < |s| && s[p] != 'x' && s[p - 1] != '0' {
      XStopIs(s, p + 1);
    }
  }

  function LastX(s: string): (r: nat)
    requires 'x' in s
    ensures r < |s| && s[r] == 'x' && forall k :: r < k < |s| ==> s[k] != 'x'
  {
    var n := |s| - 1;
    assert s == s[..n] + [s[n]];
    if s[n] == 'x' then n else LastX(s[..n])
  }

  predicate FindsX(s: string) {
    s != "" && XStop(s, 1) < |s| && s[XStop(s, 1)] == 'x'
  }

  // apxStrToul. The empty string and more than eight digits are beyond what C defines.
  method StrToul(s: string) returns (r: bv32)
    requires s != "" && (FindsX(s) ==> |s| - LastX(s) - 1 <= 8)
    ensures r == if FindsX(s) then Accumulate(s[LastX(s) + 1..], 0, 0) else 0
    ensures r == if FindsX(s) then ValueRead(s[LastX(s) + 1..]) else 0
  {
    hide HexDigit, AddDigit, Shift, LastX, ValueRead;
    var rv: bv32, used, p := 0, 0, 1;
    if FindsX(s) {
      ReadIsValue(s[LastX(s) + 1..]);
    }
    while p < |s| && s[p] != 'x' && s[p - 1] != '0'
      invariant 0 < p <= |s| && XStop(s, p) == XStop(s, 1)
    {
      p := p + 1;
    }
    if p == |s| || s[p] != 'x' {
      return 0;
    }
    while p + 1 < |s|
      invariant p < |s|
    {
      p := p + 1;
    }
    ghost var x := LastX(s);
    ghost var digits := s[x + 1..];
    assert digits[..|digits|] == digits;
    while s[p] != 'x'
      invariant x <= p < |s| && used == |s| - 1 - p
      invariant Accumulate(digits, 0, 0) == Accumulate(digits[..p - x], rv, used)
      decreases p
    {
      assert digits[..p - x][..p - x - 1] == digits[..p - x - 1];
      assert digits[..p - x][p - x - 1] == s[p];
      var v := HexDigit(s[p]);
      p := p - 1;
      if v.None? {
        return 0;
      }
      rv := AddDigit(rv, v.value, Shift(used));
      used := used + 1;
    }
    return rv;
  }

  // Writing a word and reading it back.
  lemma HexRoundTrip(n: bv32)
    ensures var s := "0x" + HexDigits(n, 8);
      FindsX(s) && LastX(s) == 1 && Accumulate(s[LastX(s) + 1..], 0, 0) == n
  {
    hide HexChar, HexDigits, Accumulate;
    var s := "0x" + HexDigits(n, 8);
    HexDigitsHaveNoX(n, 8);
    assert s[1] == 'x' && s[2..] == HexDigits(n, 8);
    assert XStop(s, 1) == 1;
    forall k | 1 < k < |s|
      ensures s[k] != 'x'
    {
      assert s[k] == s[2..][k - 2];
    }
    AccumulateUndoesHexDigits(n);
  }

  lemma {:induction false} HexDigitsHaveNoX(n: bv32, count: nat)
    ensures 'x' !in HexDigits(n, count)
    decreases count
  {
    hide HexChar, DropDigit;
    if count > 0 {
      HexDigitsHaveNoX(DropDigit(n), count - 1);
      HexDigitOfChar(n);
    }
  }

  method HexThereAndBack(n: bv32) returns (r: bv32)
    ensures r == n
  {
    hide HexDigits, Accumulate, XStop, LastX;
    var buff := new char[11];
    var ok := UlToHex(n, buff, 11);
    assert buff[..11] == buff[..];
    HexRoundTrip(n);
    assert buff[..10] == buff[..11][..10] == "0x" + HexDigits(n, 8);
    r := StrToul(buff[..10]);
  }

  // ---- Decimal ----

  // The value of a 32-bit unsigned word.
  function Word(x: int): (w: nat)
    ensures w < 0x1_0000_0000
  {
    x % 0x1_0000_0000
  }

  // The digits at the end of a text.
  function DigitTail(s: string): (t: string)
    ensures |t| <= |s| && s[|s| - |t|..] == t
  {
    if s == "" || !IsDigit(s[|s| - 1]) then ""
    else
      var t := DigitTail(s[..|s| - 1]);
      assert s == s[..|s| - 1] + [s[|s| - 1]];
      t + [s[|s| - 1]]
  }

  lemma {:induction false} WordAddMultiple(x: int, k: int)
    ensures Word(x + 0x1_0000_0000 * k) == Word(x)
  {
  }

  // rv + v * sh on words is the word of the sum.
  lemma WordSum(a: nat, v: nat, b: nat)
    ensures Word(Word(a) + v * Word(b)) == Word(a + v * b)
  {
    var qa, qb := a / 0x1_0000_0000, b / 0x1_0000_0000;
    assert v * b == v * Word(b) + 0x1_0000_0000 * (v * qb) by {
      assert b == Word(b) + 0x1_0000_0000 * qb;
    }
    WordAddMultiple(Word(a) + v * Word(b), qa + v * qb);
  }

  // rv * sign
  function SignedWord(x: int, sign: int): (w: nat)
    ensures w < 0x1_0000_0000
  {
    Word(x * sign)
  }

  lemma WordSigned(a: nat, sign: int)
    requires sign == 1 || sign == -1
    ensures SignedWord(Word(a), sign) == SignedWord(a, sign)
  {
    var q, low: int := a / 0x1_0000_0000, Word(a);
    if sign == -1 {
      WordAddMultiple(0 - low, 0 - q);
      assert Word(a) * sign == 0 - low && a * sign == 0 - low + 0x1_0000_0000 * (0 - q);
    } else {
      assert Word(a) * sign == low && a * sign == a;
    }
  }

  lemma {:induction false} NumeralFront(c: char, t: string)
    ensures NumeralValue([c] + t) == (c as int - '0' as int) * Pow10(|t|) + NumeralValue(t)
    decreases |t|
  {
    var s := [c] + t;
    if t == "" {
      assert s[..0] == "" && NumeralValue("") == 0;
    } else {
      var n := |t| - 1;
      assert s[..|s| - 1] == [c] + t[..n];
      NumeralFront(c, t[..n]);
      var d := c as int - '0' as int;
      assert d * Pow10(n) * 10 == d * (10 * Pow10(n));
    }
  }

  lemma {:induction false} NumeralIsNat(t: string)
    requires forall k :: 0 <= k < |t| ==> IsDigit(t[k])
    ensures NumeralValue(t) >= 0
  {
    if t != "" {
      NumeralIsNat(t[..|t| - 1]);
    }
  }

  function Sign(s: string): int {
    if s != "" && s[0] == '-' then -1 else 1
  }

  // One more digit in front of those already read, on words.
  lemma AtoulStep(s: string, p: nat, rv: nat, sh: nat)
    requires p < |s| && IsDigit(s[p]) && forall k :: p < k < |s| ==> IsDigit(s[k])
    requires rv == Word(NumeralValue(s[p + 1..])) && sh == Word(Pow10(|s| - (p + 1)))
    ensures Word(rv + (s[p] as int - '0' as int) * sh) == Word(NumeralValue(s[p..]))
    ensures Word(sh * 10) == Word(Pow10(|s| - p))
  {
    var t, v := s[p + 1..], s[p] as int - '0' as int;
    assert s[p..] == [s[p]] + t;
    NumeralFront(s[p], t);
    NumeralIsNat(t);
    WordSum(NumeralValue(t), v, Pow10(|t|));
    WordSum(0, 10, Pow10(|t|));
  }

  lemma DigitTailStep(s: string, p: nat)
    requires p < |s|
    ensures DigitTail(s[..p + 1]) == if IsDigit(s[p]) then DigitTail(s[..p]) + [s[p]] else ""
  {
    assert s[..p + 1][..p] == s[..p];
  }

  // The loop of apxAtoulW has read the characters from i on, all of them digits.
  ghost predicate HasRead(s: string, i: nat, rv: int, sh: int) {
    && i <= |s| && (forall k :: i <= k < |s| ==> IsDigit(s[k]))
    && DigitTail(s) == DigitTail(s[..i]) + s[i..]
    && rv == Word(NumeralValue(s[i..])) && sh == Word(Pow10(|s| - i))
  }

  lemma HasReadNothing(s: string)
    ensures HasRead(s, |s|, 0, 1)
  {
    assert s[..|s|] == s && s[|s|..] == "" && DigitTail(s) + "" == DigitTail(s);
    assert NumeralValue("") == 0 && Pow10(0) == 1;
  }

  lemma HasReadOneMore(s: string, p: nat, rv: int, sh: int)
    requires HasRead(s, p + 1, rv, sh) && IsDigit(s[p])
    ensures HasRead(s, p, Word(rv + (s[p] as int - '0' as int) * sh), Word(sh * 10))
  {
    hide DigitTail, NumeralValue, Pow10, Word;
    DigitTailStep(s, p);
    AtoulStep(s, p, rv, sh);
    TailMoves(DigitTail(s[..p]), s, p);
  }

  lemma TailMoves(a: string, s: string, p: nat)
    requires p < |s|
    ensures a + [s[p]] + s[p + 1..] == a + s[p..]
  {
  }

  lemma NoDigitNoTail(s: string)
    requires s != "" ==> !IsDigit(s[|s| - 1])
    ensures DigitTail(s) == ""
  {
  }

  // What has been read, apart from its value.
  lemma ReadIsTail(s: string, i: nat)
    requires i <= |s| && DigitTail(s) == DigitTail(s[..i]) + s[i..] && (i > 0 ==> !IsDigit(s[i - 1]))
    ensures DigitTail(s) == s[i..]
  {
    hide DigitTail, IsDigit;
    NoDigitNoTail(s[..i]);
  }

  // When the character in front is no digit, all of the tail has been read.
  lemma TailIsRead(s: string, i: nat, rv: int, sh: int)
    requires HasRead(s, i, rv, sh) && (i > 0 ==> !IsDigit(s[i - 1]))
    ensures i <= |s| && DigitTail(s) == s[i..] && NumeralValue(s[i..]) >= 0 && rv == Word(NumeralValue(s[i..]))
  {
    hide DigitTail, NumeralValue, Word, Pow10, IsDigit;
    ReadIsTail(s, i);
    TailIsNat(s, i);
  }

  lemma TailIsNat(s: string, i: nat)
    requires i <= |s| && forall k :: i <= k < |s| ==> IsDigit(s[k])
    ensures NumeralValue(s[i..]) >= 0
  {
    hide NumeralValue, IsDigit;
    NumeralIsNat(s[i..]);
  }

  lemma HasReadAll(s: string, i: nat, rv: int, sh: int, sign: int)
    requires HasRead(s, i, rv, sh) && (i > 0 ==> !IsDigit(s[i - 1])) && (sign == 1 || sign == -1)
    ensures SignedWord(rv, sign) == SignedWord(NumeralValue(DigitTail(s)), sign)
  {
    hide DigitTail, NumeralValue, Word, SignedWord, HasRead;
    TailIsRead(s, i, rv, sh);
    WordSigned(NumeralValue(s[i..]), sign);
  }

  // apxAtoulW: the digits at the end, on 32-bit words, negated after a leading minus. For
  // "-" alone the code reads past the terminator.
  method AtoulW(s: string) returns (r: nat)
    requires s != "-"
    ensures r == SignedWord(NumeralValue(DigitTail(s)), Sign(s))
  {
    hide DigitTail, NumeralValue, Word, SignedWord, HasRead;
    if s == "" {
      EmptyIsZero();
      return 0;
    }
    var rv: int, sh: int, sign, p: int := 0, 1, 1, 0;
    if s[p] == '-' {
      sign := -1;
      p := p + 1;
    }
    while p + 1 < |s|
      invariant 0 <= p < |s|
    {
      p := p + 1;
    }
    HasReadNothing(s);
    while p >= 0
      invariant -1 <= p < |s| && HasRead(s, p + 1, rv, sh)
      decreases p
    {
      if !IsDigit(s[p]) {
        break;
      }
      HasReadOneMore(s, p, rv, sh);
      var v := s[p] as int - '0' as int;
      p := p - 1;
      rv := Word(rv + v * sh);
      sh := Word(sh * 10);
    }
    HasReadAll(s, p + 1, rv, sh, sign);
    return SignedWord(rv, sign);
  }

  lemma EmptyIsZero()
    ensures DigitTail("") == "" && NumeralValue("") == 0 && SignedWord(0, 1) == 0
  {
  }

  lemma {:induction false} DigitTailOfDigits(a: string, t: string)
    requires (forall k :: 0 <= k < |t| ==> IsDigit(t[k])) && (a != "" ==> !IsDigit(a[|a| - 1]))
    ensures DigitTail(a + t) == t
    decreases |t|
  {
    if t == "" {
      assert a + t == a;
    } else {
      assert (a + t)[..|a + t| - 1] == a + t[..|t| - 1];
      DigitTailOfDigits(a, t[..|t| - 1]);
    }
  }

  lemma DecimalTail(n: nat)
    ensures DigitTail(Decimal(n)) == Decimal(n) && Sign(Decimal(n)) == 1
    ensures DigitTail("-" + Decimal(n)) == Decimal(n) && Sign("-" + Decimal(n)) == -1
  {
    hide Decimal, DigitTail;
    var t := Decimal(n);
    forall k | 0 <= k < |t|
      ensures IsDigit(t[k])
    {
      assert t[k] in t;
    }
    assert "" + t == t && IsDigit(t[0]);
    DigitTailOfDigits("", t);
    DigitTailOfDigits("-", t);
  }

  // Reading inverts decimal printing of a word, and of its negation.
  lemma AtoulOfDecimal(n: nat)
    requires n < 0x1_0000_0000
    ensures SignedWord(NumeralValue(DigitTail(Decimal(n))), Sign(Decimal(n))) == n
    ensures SignedWord(NumeralValue(DigitTail("-" + Decimal(n))), Sign("-" + Decimal(n))) ==
      if n == 0 then 0 else 0x1_0000_0000 - n
  {
    hide Decimal, DigitTail, NumeralValue, Sign;
    DecimalTail(n);
    NumeralOfDecimal(n);
  }

  // Any text at all: whatever stands in front of the digits at its end, the number that they
  // spell counts, negated if the text begins with a minus, on words.
  lemma AtoulReads(a: string, t: string)
    requires (forall k :: 0 <= k < |t| ==> '0' <= t[k] <= '9') && (a != "" ==> !('0' <= a[|a| - 1] <= '9'))
    ensures SignedWord(NumeralValue(DigitTail(a + t)), Sign(a + t)) ==
      (if a != "" && a[0] == '-' then 0 - NumeralValue(t) else NumeralValue(t)) % 0x1_0000_0000
  {
    hide *;
    DigitTailOfText(a, t);
    SignOfText(a, t);
    SignedWordIs(NumeralValue(t), Sign(a + t));
  }

  lemma DigitTailOfText(a: string, t: string)
    requires (forall k :: 0 <= k < |t| ==> '0' <= t[k] <= '9') && (a != "" ==> !('0' <= a[|a| - 1] <= '9'))
    ensures DigitTail(a + t) == t
  {
    DigitTailOfDigits(a, t);
  }

  lemma SignOfText(a: string, t: string)
    requires forall k :: 0 <= k < |t| ==> '0' <= t[k] <= '9'
    ensures Sign(a + t) == if a != "" && a[0] == '-' then -1 else 1
  {
    assert a == "" ==> a + t == t;
  }

  lemma SignedWordIs(n: int, sign: int)
    requires sign == 1 || sign == -1
    ensures SignedWord(n, sign) == (if sign == -1 then 0 - n else n) % 0x1_0000_0000
  {
    assert n * sign == if sign == -1 then 0 - n else n;
  }
}

// UTF-8 (RFC 3629, section 3), in which the server reads its pages.
module Utf8 {
  import opened Prelude

  type Byte = b: int | 0 <= b < 256

  // How many bytes a character takes.
  function Width(c: char): nat {
    var n := c as int;
    if n < 0x80 then 1 else if n < 0x800 then 2 else if n < 0x1_0000 then 3 else 4
  }

  // A byte that continues a character, with its six bits.
  function Trail(bits: int): Byte
    requires 0 <= bits < 64
  {
    0x80 + bits
  }

  function EncodeChar(c: char): (r: seq<Byte>)
    ensures |r| == Width(c)
  {
    var n := c as int;
    if n < 0x80 then [n]
    else if n < 0x800 then [0xC0 + n / 64, Trail(n % 64)]
    else if n < 0x1_0000 then [0xE0 + n / 64 / 64, Trail(n / 64 % 64), Trail(n % 64)]
    else [0xF0 + n / 64 / 64 / 64, Trail(n / 64 / 64 % 64), Trail(n / 64 % 64), Trail(n % 64)]
  }

  function Encode(t: string): seq<Byte> {
    if t == "" then [] else EncodeChar(t[0]) + Encode(t[1..])
  }

  // How many bytes the character that this byte begins takes; 0 if it begins none.
  function WidthOfLead(b: Byte): nat {
    if b < 0x80 then 1 else if b < 0xC0 then 0 else if b < 0xE0 then 2 else if b < 0xF0 then 3
    else if b < 0xF8 then 4 else 0
  }

  predicate IsTrail(b: Byte) {
    0x80 <= b < 0xC0
  }

  // The number in the first k bytes: the bits of the lead byte, then six of each trail byte.
  function Bits(b: seq<Byte>, k: nat): (n: int)
    requires 0 < k <= 4 && k <= |b| && WidthOfLead(b[0]) == k
  {
    var lead: int := b[0];
    match k
    case 1 => lead
    case 2 => (lead - 0xC0) * 64 + Six(b[1])
    case 3 => (lead - 0xE0) * 4096 + Six(b[1]) * 64 + Six(b[2])
    case _ => (lead - 0xF0) * 262144 + Six(b[1]) * 4096 + Six(b[2]) * 64 + Six(b[3])
  }

  // The six bits of a trail byte.
  function Six(b: Byte): int {
    var n: int := b;
    n - 0x80
  }

  // The character at the front, if there is a well-formed one: no overlong form, no surrogate
  // and nothing above 0x10FFFF.
  function FirstChar(b: seq<Byte>): (r: Option<char>)
    ensures r.Some? ==> |b| >= Width(r.value)
  {
    if b == [] then None
    else
      var k := WidthOfLead(b[0]);
      if k == 0 || k > |b| || (exists i :: 0 < i < k && !IsTrail(b[i])) then None
      else
        var n := Bits(b, k);
        if !(0 <= n < 0xD800 || 0xE000 <= n < 0x11_0000) then None
        else if Width(n as char) != k then None
        else Some(n as char)
  }

  function Decode(b: seq<Byte>): Option<string>
    decreases |b|
  {
    if b == [] then Some("")
    else
      var c := FirstChar(b);
      if c.None? then None
      else
        var rest := Decode(b[Width(c.value)..]);
        if rest.None? then None else Some([c.value] + rest.value)
  }

  // The lead byte tells the length, the others are trail bytes, and together they hold the
  // character.
  lemma EncodedIsWellFormed(c: char)
    ensures var b := EncodeChar(c);
      WidthOfLead(b[0]) == |b| && (forall i :: 0 < i < |b| ==> IsTrail(b[i])) && Bits(b, |b|) == c as int
  {
    var n := c as int;
    var q, r := n / 64, n % 64;
    assert n == q * 64 + r;
    var q2, r2 := q / 64, q % 64;
    assert q == q2 * 64 + r2;
    var q3, r3 := q2 / 64, q2 % 64;
    assert q2 == q3 * 64 + r3;
  }

  lemma SameFront(b: seq<Byte>, rest: seq<Byte>)
    requires 0 < |b| <= 4 && WidthOfLead(b[0]) == |b|
    ensures Bits(b + rest, |b|) == Bits(b, |b|)
    ensures forall i :: 0 <= i < |b| ==> (b + rest)[i] == b[i]
  {
  }

  lemma FirstCharOfEncoded(c: char, rest: seq<Byte>)
    ensures FirstChar(EncodeChar(c) + rest) == Some(c)
  {
    EncodedIsWellFormed(c);
    SameFront(EncodeChar(c), rest);
    hide EncodeChar, Bits, WidthOfLead, IsTrail, Width;
  }

  // Every text is read back from its UTF-8 form.
  lemma {:induction false} DecodeUndoesEncode(t: string)
    ensures Decode(Encode(t)) == Some(t)
    decreases |t|
  {
    hide EncodeChar, FirstChar, Width;
    if t != "" {
      var rest := Encode(t[1..]);
      FirstCharOfEncoded(t[0], rest);
      assert Encode(t) == EncodeChar(t[0]) + rest && Encode(t)[|EncodeChar(t[0])|..] == rest;
      DecodeUndoesEncode(t[1..]);
      assert Encode(t) != [] by {
        LeadExists(t[0]);
      }
      assert t == [t[0]] + t[1..];
    }
  }

  lemma LeadExists(c: char)
    ensures |EncodeChar(c)| == Width(c) > 0
  {
  }

  lemma {:induction false} EncodeLast(t: string)
    requires t != ""
    ensures Encode(t) == Encode(t[..|t| - 1]) + EncodeChar(t[|t| - 1])
    decreases |t|
  {
    hide EncodeChar;
    if |t| == 1 {
      assert t[1..] == "" && t[..0] == "" && Encode(t) == EncodeChar(t[0]) + [];
    } else {
      EncodeLast(t[1..]);
      assert t[1..][..|t| - 2] == t[..|t| - 1][1..];
    }
  }

  // The bytes that are taken for a character are its own.
  lemma FirstCharIsEncoded(b: seq<Byte>)
    requires FirstChar(b).Some?
    ensures EncodeChar(FirstChar(b).value) == b[..Width(FirstChar(b).value)]
  {
    var c := FirstChar(b).value;
    var k := Width(c);
    var n: int := c as int;
    assert WidthOfLead(b[0]) == k && Bits(b, k) == n && forall i :: 0 < i < k ==> IsTrail(b[i]);
    match k
    case 1 =>
    case 2 => SixtyFours(n, (b[0] as int - 0xC0), Six(b[1]));
    case 3 =>
      var high := (b[0] as int - 0xE0) * 64 + Six(b[1]);
      SixtyFours(n, high, Six(b[2]));
      SixtyFours(high, b[0] as int - 0xE0, Six(b[1]));
    case 4 =>
      var higher := (b[0] as int - 0xF0) * 64 + Six(b[1]);
      var high := higher * 64 + Six(b[2]);
      SixtyFours(n, high, Six(b[3]));
      SixtyFours(high, higher, Six(b[2]));
      SixtyFours(higher, b[0] as int - 0xF0, Six(b[1]));
  }

  lemma SixtyFours(n: int, q: int, r: int)
    requires n == q * 64 + r && 0 <= r < 64
    ensures n / 64 == q && n % 64 == r
  {
  }

  // So exactly the UTF-8 forms of texts are read at all, each as its text.
  lemma {:induction false} EncodeUndoesDecode(b: seq<Byte>)
    requires Decode(b).Some?
    ensures Encode(Decode(b).value) == b
    decreases |b|
  {
    hide EncodeChar, FirstChar, Width;
    if b != [] {
      var c := FirstChar(b).value;
      LeadExists(c);
      EncodeUndoesDecode(b[Width(c)..]);
      FirstCharIsEncoded(b);
      var t := Decode(b).value;
      assert t[0] == c && t[1..] == Decode(b[Width(c)..]).value;
    }
  }

  // One character of each width.
  lemma WidthExamples()
    ensures Encode("A") == [0x41] && Encode("\U{00E9}") == [0xC3, 0xA9]
    ensures Encode("\U{20AC}") == [0xE2, 0x82, 0xAC] && Encode("\U{10348}") == [0xF0, 0x90, 0x8D, 0x88]
  {
    assert "A"[1..] == "\U{00E9}"[1..] == "\U{20AC}"[1..] == "\U{10348}"[1..] == "";
  }
}

// Multi-string options of cmdline.c: a value such as a#b;c becomes a multi-string, quotes
// protect separators, and repeating an option on the command line appends to its value.
module OptionSplitter {
  import opened MultiSz
  import opened Prelude

  // The characters written for s, given which quotes are open.
  function Split(s: string, inSingle: bool, inDouble: bool): (r: string)
    ensures |r| <= |s|
  {
    if s == "" then ""
    else if s[0] == '\'' then Split(s[1..], !inSingle, inDouble)
    else if s[0] == '"' then "\"" + Split(s[1..], inSingle, !inDouble)
    else if (s[0] == '#' || s[0] == ';') && !inSingle && !inDouble then [NUL] + Split(s[1..], inSingle, inDouble)
    else [s[0]] + Split(s[1..], inSingle, inDouble)
  }

  function Value(val: string): string {
    Split(val, false, false)
  }

  // Exactly the single quotes are missing from what is written.
  lemma {:induction false} SplitLength(s: string, inSingle: bool, inDouble: bool)
    ensures |Split(s, inSingle, inDouble)| + Occurrences(s, '\'') == |s|
  {
    hide Occurrences;
    if s != "" {
      SplitLength(s[1..], if s[0] == '\'' then !inSingle else inSingle, if s[0] == '"' then !inDouble else inDouble);
      OccurrencesBehind(s[0], s[1..], '\'');
      assert s == [s[0]] + s[1..];
    } else {
      OccurrencesOfNothing('\'');
    }
  }

  // What is written for character i of s stands as far further left as there are single
  // quotes before it. A separator becomes a NUL exactly when each kind of quote comes an even
  // number of times before it; any other character is itself.
  ghost predicate Stands(s: string, i: nat, inSingle: bool, inDouble: bool, r: string)
    requires i < |s|
  {
    var singles, doubles := Occurrences(s[..i], '\''), Occurrences(s[..i], '"');
    var isOpen := (singles % 2 == 1) != inSingle || (doubles % 2 == 1) != inDouble;
    && 0 <= i - singles < |r|
    && r[i - singles] == if (s[i] == '#' || s[i] == ';') && !isOpen then NUL else s[i]
  }

  lemma {:induction false} SplitAt(s: string, i: nat, inSingle: bool, inDouble: bool)
    requires i < |s| && s[i] != '\''
    ensures Stands(s, i, inSingle, inDouble, Split(s, inSingle, inDouble))
  {
    hide Occurrences;
    if i == 0 {
      OccurrencesOfNothing('\'');
      OccurrencesOfNothing('"');
      assert s[..0] == "";
    } else {
      SplitAt(s[1..], i - 1, if s[0] == '\'' then !inSingle else inSingle, if s[0] == '"' then !inDouble else inDouble);
      assert s[..i] == [s[0]] + s[1..][..i - 1];
      OccurrencesBehind(s[0], s[1..][..i - 1], '\'');
      OccurrencesBehind(s[0], s[1..][..i - 1], '"');
    }
  }

  // So for a whole value, in which no quote is open at first.
  lemma ValueAt(val: string, i: nat)
    requires i < |val| && val[i] != '\''
    ensures var singles, doubles := Occurrences(val[..i], '\''), Occurrences(val[..i], '"');
      && 0 <= i - singles < |Value(val)| == |val| - Occurrences(val, '\'')
      && Value(val)[i - singles] ==
           if (val[i] == '#' || val[i] == ';') && singles % 2 == 0 && doubles % 2 == 0 then NUL else val[i]
  {
    hide Occurrences, Split;
    SplitAt(val, i, false, false);
    SplitLength(val, false, false);
  }

  // The loop shared by apxCmdlineParse and apxCmdlineLoadEnvVars; it writes from index sp
  // on and relies on the rest of the block being zero.
  method WritePieces(a: array<char>, sp0: nat, val: string)
    requires sp0 + |val| + 2 <= a.Length
    modifies a
    ensures a[..] == old(a[..sp0]) + Value(val) + old(a[sp0 + |Value(val)|..])
  {
    hide Split;
    ghost var m, out := a[..], Value(val);
    var insquote, indquote, sp, pp := false, false, sp0, 0;
    ghost var k := 0;
    assert val[0..] == val && out[0..] == out;
    while pp < |val|
      invariant k <= pp <= |val| && k <= |out| && sp == sp0 + k
      invariant out[k..] == Split(val[pp..], insquote, indquote)
      invariant a[..sp0] == m[..sp0] && a[sp0..sp] == out[..k]
      invariant forall i :: sp <= i < a.Length ==> a[i] == m[i]
    {
      SplitStep(val, pp, insquote, indquote);
      if val[pp] == '\'' {
        insquote := !insquote;
      } else {
        assert out[k] == out[k..][0] && out[k + 1..] == out[k..][1..];
        if val[pp] == '"' {
          indquote := !indquote;
          a[sp] := '"';
        } else if (val[pp] == '#' || val[pp] == ';') && !insquote && !indquote {
          a[sp] := NUL;
        } else {
          a[sp] := val[pp];
        }
        assert a[sp] == out[k];
        sp, k := sp + 1, k + 1;
      }
      pp := pp + 1;
    }
    SplitNothing(val, insquote, indquote);
    assert out[..k] == out;
    assert a[..] == a[..sp0] + a[sp0..sp] + m[sp..];
  }

  // A zeroed block for the kept characters, the new ones and two terminators.
  method NewValue(kept: string, val: string) returns (a: array<char>)
    ensures fresh(a) && a.Length == |kept| + |val| + 2
    ensures a[..] == kept + Value(val) + Zeros(|val| + 2 - |Value(val)|)
  {
    hide Split;
    a := Calloc(|kept| + |val| + 2);
    Put(a, 0, kept);
    assert a[..|kept|] == kept;
    assert forall i :: |kept| <= i < a.Length ==> a[i] == NUL;
    ghost var rest := a[|kept| + |Value(val)|..];
    assert rest == Zeros(|val| + 2 - |Value(val)|);
    WritePieces(a, |kept|, val);
  }

  lemma SplitStep(s: string, i: nat, inSingle: bool, inDouble: bool)
    requires i < |s|
    ensures var r := Split(s[i..], inSingle, inDouble);
      if s[i] == '\'' then r == Split(s[i + 1..], !inSingle, inDouble)
      else
        && r != "" && r[1..] == Split(s[i + 1..], inSingle, if s[i] == '"' then !inDouble else inDouble)
        && r[0] == if (s[i] == '#' || s[i] == ';') && !inSingle && !inDouble then NUL else s[i]
  {
    assert s[i..][1..] == s[i + 1..];
  }

  lemma SplitNothing(s: string, inSingle: bool, inDouble: bool)
    ensures Split(s[|s|..], inSingle, inDouble) == ""
  {
  }

  // An option record: dwValue is the size of szValue in bytes, two per character.
  class OptionRecord {
    var found: bool
    var add: bool
    var dwValue: nat
    var szValue: array?<char>

    ghost predicate Valid()
      reads this
    {
      if szValue == null then dwValue == 0 else dwValue == 2 * szValue.Length && szValue.Length >= 2
    }

    // The characters of the value; nothing when there is none.
    ghost function Contents(): string
      reads this, szValue
    {
      if szValue == null then "" else szValue[..]
    }

    constructor ()
      ensures Valid() && szValue == null && !found && !add
    {
      found, add, dwValue, szValue := false, false, 0, null;
    }

    // --name=val (add is false) or ++name=val (add is true) in apxCmdlineParse.
    method Accept(plus: bool, val: string)
      requires Valid() && IsCString(val)
      modifies this
      ensures Valid() && found && fresh(szValue) && szValue != null
      ensures add == (plus && (old(add) || !old(found)))
      ensures var before := if !plus && old(add) then "" else old(Contents());
        Contents() == Appended(before, val)
    {
      if plus {
        if !found {
          add := true;
        }
      } else if add {
        add := false;
        dwValue := 0;
        szValue := null;
      }
      AppendPieces(val);
      found := true;
    }

    // The APXCMDOPT_MSZ branch.
    method AppendPieces(val: string)
      requires Valid() && IsCString(val)
      modifies this`dwValue, this`szValue
      ensures Valid() && fresh(szValue) && szValue != null
      ensures Contents() == Appended(old(Contents()), val)
    {
      var sp := 0;
      var ov := szValue;
      if dwValue > 2 {
        sp := (dwValue - 2) / 2;
      }
      dwValue := (sp + |val| + 2) * 2;
      szValue := NewValue(if sp > 0 then ov[..sp] else "", val);
    }

    // PR_name=val in apxCmdlineLoadEnvVars.
    method LoadEnv(val: string)
      requires Valid() && IsCString(val)
      modifies this
      ensures Valid() && found && add && fresh(szValue) && szValue != null
      ensures Contents() == Appended("", val)
    {
      dwValue := (|val| + 2) * 2;
      szValue := NewValue("", val);
      assert "" + Value(val) == Value(val);
      found, add := true, true;
    }
  }

  // The value with val appended: all but the last NUL of the old one, the new pieces, and
  // zeros up to the end of the allocation.
  function Appended(before: string, val: string): string {
    (if before == "" then "" else before[..|before| - 1]) + Value(val) + Zeros(|val| + 2 - |Value(val)|)
  }

  // ---- What a reader sees after an append ----

  // The text between NULs.
  function Pieces(t: string): (p: seq<string>)
    ensures p != []
  {
    var k := FirstNul(t);
    if k < |t| then [t[..k]] + Pieces(t[k + 1..]) else [t]
  }

  lemma FlatCons(x: string, list: seq<string>)
    ensures Flat([x] + list) == x + [NUL] + Flat(list)
  {
    assert ([x] + list)[1..] == list;
  }

  lemma PiecesCut(t: string)
    ensures var k := FirstNul(t);
      Pieces(t) == if k < |t| then [t[..k]] + Pieces(t[k + 1..]) else [t]
  {
    hide FirstNul;
  }

  lemma CutAt(t: string, k: nat)
    requires k < |t| && t[k] == NUL
    ensures t == t[..k] + [NUL] + t[k + 1..]
  {
  }

  lemma {:induction false} PiecesAreFlat(t: string)
    ensures Flat(Pieces(t)) == t + [NUL] && CStrings(Pieces(t))
    decreases |t|
  {
    hide FirstNul, Pieces, Flat;
    var k := FirstNul(t);
    PiecesCut(t);
    if k < |t| {
      var rest := t[k + 1..];
      PiecesAreFlat(rest);
      FlatCons(t[..k], Pieces(rest));
      CutAt(t, k);
      assert t[..k] + [NUL] + (rest + [NUL]) == t + [NUL];
    } else {
      FlatCons(t, []);
      assert t[..k] == t;
      assert [t] + [] == [t];
      FlatOfNothing();
    }
  }

  lemma {:induction false} UpToEmptyConcat(a: seq<string>, b: seq<string>)
    ensures UpToEmpty(a + b) == if "" in a then UpToEmpty(a) else a + UpToEmpty(b)
  {
    if a == [] {
      assert a + b == b;
    } else {
      assert (a + b)[0] == a[0] && (a + b)[1..] == a[1..] + b;
      if a[0] != "" {
        UpToEmptyConcat(a[1..], b);
        assert a == [a[0]] + a[1..];
        assert [a[0]] + (a[1..] + UpToEmpty(b)) == a + UpToEmpty(b);
      }
    }
  }

  lemma FirstPieceEmpty(t: string)
    ensures UpToEmpty(Pieces(t)) == [] <==> Pieces(t)[0] == ""
  {
  }

  // The old value holds the strings q, empty ones included, and its closing NUL. Appending
  // gives a reader the old strings followed by the new pieces exactly when there is nothing
  // to be seen of the new ones or no old string is empty.
  lemma AppendReadsIff(q: seq<string>, val: string)
    requires q != [] && CStrings(q) && IsCString(val)
    ensures Decode(Appended(Encode(q), val)) == Decode(Encode(q)) + Decode(Appended("", val))
      <==> Pieces(Value(val))[0] == "" || "" !in q
  {
    hide Decode, Flat, Split, Pieces, UpToEmpty;
    var t := Value(val);
    var n := |val| + 2 - |t|;
    var p := Pieces(t);
    PiecesAreFlat(t);
    FlatConcat(q, p);
    assert Encode(q)[..|Encode(q)| - 1] == Flat(q);
    assert Zeros(n) == [NUL] + [NUL] + Zeros(n - 2);
    var tail := Zeros(n - 2);
    assert Appended(Encode(q), val) == Flat(q + p) + [NUL] + tail;
    assert Appended("", val) == Flat(p) + [NUL] + tail;
    assert Encode(q) == Flat(q) + [NUL] + "";
    DecodeFlat(q + p, tail);
    DecodeFlat(p, tail);
    DecodeFlat(q, "");
    UpToEmptyConcat(q, p);
    FirstPieceEmpty(t);
    UpToEmptyIsAll(q);
    if "" in q {
      assert UpToEmpty(q) == UpToEmpty(q) + UpToEmpty(p) <==> UpToEmpty(p) == [];
    }
  }

  function Empties(n: nat): seq<string> {
    seq(n, _ => "")
  }

  lemma {:induction false} FlatOfEmpties(n: nat)
    ensures Flat(Empties(n)) == Zeros(n)
  {
    if n > 0 {
      assert Empties(n)[1..] == Empties(n - 1);
      FlatOfEmpties(n - 1);
      assert Zeros(n) == [NUL] + Zeros(n - 1);
    }
  }

  // What an append leaves is again of that form: each single quote that was dropped leaves
  // an empty string behind the new pieces.
  lemma AppendKeepsForm(q: seq<string>, val: string)
    requires CStrings(q) && IsCString(val)
    ensures Appended(if q == [] then "" else Encode(q), val)
         == Encode(q + Pieces(Value(val)) + Empties(Occurrences(val, '\'')))
  {
    hide Flat, Split, Pieces;
    var t := Value(val);
    var p := Pieces(t);
    PiecesAreFlat(t);
    SplitLength(val, false, false);
    var k := Occurrences(val, '\'');
    FlatConcat(q + p, Empties(k));
    FlatConcat(q, p);
    FlatOfEmpties(k);
    FlatOfNothing();
    assert Zeros(k + 2) == [NUL] + Zeros(k) + [NUL];
    if q != [] {
      assert Encode(q)[..|Encode(q)| - 1] == Flat(q);
    }
  }

  // Giving the option twice reads as both lists of pieces exactly when the second is
  // invisible, or the first has no single quote and no empty piece.
  lemma RepeatReadsIff(first: string, second: string)
    requires IsCString(first) && IsCString(second)
    ensures Decode(Appended(Appended("", first), second)) == Decode(Appended("", first)) + Decode(Appended("", second))
      <==> Pieces(Value(second))[0] == "" || (Occurrences(first, '\'') == 0 && "" !in Pieces(Value(first)))
  {
    hide Decode, Flat, Split, Pieces, UpToEmpty, Appended, Occurrences;
    var p, e := Pieces(Value(first)), Empties(Occurrences(first, '\''));
    PiecesAreFlat(Value(first));
    AppendKeepsForm([], first);
    assert [] + p + e == p + e;
    AppendReadsIff(p + e, second);
    assert e != [] ==> e[0] in e;
  }

  lemma PlainLetter(c: char)
    requires c !in "'\"#;" && c != NUL
    ensures Value([c]) == [c] && Pieces([c]) == [[c]] && Occurrences([c], '\'') == 0
  {
    assert [c][1..] == "" && [c][..1] == [c];
    assert FirstNul("") == 0 && FirstNul([c]) == 1;
  }

  lemma QuotedLetter()
    ensures Value("'a'") == "a" && Occurrences("'a'", '\'') == 2
  {
    assert "'a'"[1..] == "a'" && "a'"[1..] == "'" && "'"[1..] == "";
    assert Split("'", true, false) == "" && Split("a'", true, false) == ['a'] + "";
  }

  // The option 'a' and then b: a reader of the value sees a alone.
  lemma QuotedExample()
    ensures Decode(Appended("", "'a'")) == ["a"] && Decode(Appended("", "b")) == ["b"]
    ensures Decode(Appended(Appended("", "'a'"), "b")) == ["a"]
  {
    hide Decode, Split, Pieces, UpToEmpty, Appended, Occurrences, Flat;
    QuotedLetter();
    PlainLetter('a');
    PlainLetter('b');
    AppendKeepsForm([], "'a'");
    AppendKeepsForm([], "b");
    var q := ["a", "", ""];
    assert [] + ["a"] + Empties(2) == q && [] + ["b"] + Empties(0) == ["b"];
    AppendKeepsForm(q, "b");
    assert q + ["b"] + Empties(0) == ["a", "", "", "b"];
    ReadsUpToEmpty(["a"], ["", ""]);
    ReadsUpToEmpty(["a"], ["", "", "b"]);
    ReadsUpToEmpty(["b"], []);
    assert ["a"] + ["", ""] == q && ["a"] + ["", "", "b"] == ["a", "", "", "b"] && ["b"] + [] == ["b"];
  }

  lemma ReadsUpToEmpty(front: seq<string>, rest: seq<string>)
    requires CStrings(front + rest) && "" !in front && (rest != [] ==> rest[0] == "")
    ensures Decode(Encode(front + rest)) == front
  {
    hide Decode, Flat;
    DecodeFlat(front + rest, "");
    assert Encode(front + rest) == Flat(front + rest) + [NUL] + "";
    UpToEmptyConcat(front, rest);
    assert front + [] == front;
  }
}

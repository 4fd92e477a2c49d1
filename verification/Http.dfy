// The request parser and response printer of HTTPHeaderParserImpl.java, from the decoded
// request text on. The framing rules are those of section 3 of RFC 7230.
module Http {
  import opened Numerals
  import opened Prelude
  import opened ReplaceText
  import Utf8

  const CRLF := "\r\n"
  const BLANK := "\r\n\r\n"
  const PLAIN_TYPE := "text/plain; charset=UTF-8"
  const HTML_TYPE := "text/html; charset=UTF-8"

  // ---- String.split with a literal separator ----

  function DropTrailingEmpty(parts: seq<string>): (r: seq<string>)
    ensures r <= parts && (r != [] ==> r[|r| - 1] != "")
    ensures forall i :: |r| <= i < |parts| ==> parts[i] == ""
  {
    if parts != [] && parts[|parts| - 1] == "" then DropTrailingEmpty(parts[..|parts| - 1]) else parts
  }

  function JavaSplit(s: string, sep: string): seq<string>
    requires sep != ""
  {
    var parts := Split(s, sep);
    if |parts| == 1 then parts else DropTrailingEmpty(parts)
  }

  ghost predicate Without(part: string, sep: string) {
    forall j: nat :: !IsAt(part, j, sep)
  }

  // A part without the separator stays so in front of one, unless the separator's last
  // character comes twice in it.
  lemma PartIsClean(part: string, sep: string)
    requires sep != "" && Without(part, sep)
    requires forall i :: 0 <= i < |sep| - 1 ==> sep[i] != sep[|sep| - 1]
    ensures Clean(part, sep)
  {
    forall j: nat | j < |part|
      ensures !IsAt(part + sep, j, sep)
    {
      var k := j + |sep| - 1;
      if k < |part| {
        assert (part + sep)[j..j + |sep|] == part[j..j + |sep|];
        assert !IsAt(part, j, sep);
      } else {
        assert (part + sep)[j..j + |sep|][|sep| - 1] == (part + sep)[k] == sep[k - |part|];
      }
    }
  }

  lemma WithoutCharacter(part: string, sep: string)
    requires sep != "" && sep[|sep| - 1] !in part
    ensures Without(part, sep)
  {
    forall j: nat
      ensures !IsAt(part, j, sep)
    {
      if j + |sep| <= |part| {
        assert part[j..j + |sep|][|sep| - 1] == part[j + |sep| - 1] && part[j + |sep| - 1] in part;
      }
    }
  }

  lemma {:induction false} CleanIsLeftmost(parts: seq<string>, sep: string)
    requires parts != [] && sep != ""
    requires forall i :: 0 <= i < |parts| ==> Without(parts[i], sep)
    requires forall i :: 0 <= i < |sep| - 1 ==> sep[i] != sep[|sep| - 1]
    ensures Leftmost(parts, sep)
  {
    PartIsClean(parts[0], sep);
    if |parts| > 1 {
      CleanIsLeftmost(parts[1..], sep);
    }
  }

  lemma SplitOfJoin(parts: seq<string>, sep: string)
    requires parts != [] && sep != ""
    requires forall i :: 0 <= i < |parts| ==> Without(parts[i], sep)
    requires forall i :: 0 <= i < |sep| - 1 ==> sep[i] != sep[|sep| - 1]
    ensures Split(Join(parts, sep), sep) == parts
  {
    CleanIsLeftmost(parts, sep);
    LeftmostIsUnique(parts, Join(parts, sep), sep);
  }

  // ---- Framing ----

  lemma BreakIs(s: string, j: nat)
    ensures IsAt(s, j, CRLF) <==> j + 1 < |s| && s[j] == '\r' && s[j + 1] == '\n'
  {
    assert j + 2 <= |s| ==> s[j..j + 2] == [s[j], s[j + 1]];
  }

  // Header text, body and the index of the last empty line, as the loop gathers them.
  datatype Frame = Frame(header: string, body: string, emptyIndex: nat)

  function FrameOf(lines: seq<string>, n: nat): (f: Frame)
    requires n <= |lines|
    ensures f.emptyIndex == 0 || f.emptyIndex < n
  {
    if n == 0 then Frame("", "", 0)
    else
      var f := FrameOf(lines, n - 1);
      if lines[n - 1] == "" then f.(emptyIndex := n - 1)
      else if f.emptyIndex == 0 then f.(header := f.header + lines[n - 1] + CRLF)
      else f.(body := f.body + lines[f.emptyIndex + 1])
  }

  // The loop over the lines. The line after the last empty one is never out of range.
  method ReadFrame(text: string) returns (f: Frame)
    ensures f == FrameOf(JavaSplit(text, CRLF), |JavaSplit(text, CRLF)|)
  {
    var lines := JavaSplit(text, CRLF);
    var header, body, emptyIndex: nat := "", "", 0;
    var i := 0;
    while i < |lines|
      invariant 0 <= i <= |lines| && Frame(header, body, emptyIndex) == FrameOf(lines, i)
    {
      if lines[i] != "" {
        if emptyIndex == 0 {
          header := header + lines[i] + CRLF;
        } else {
          body := body + lines[emptyIndex + 1];
        }
      } else {
        emptyIndex := i;
      }
      i := i + 1;
    }
    f := Frame(header, body, emptyIndex);
  }

  // A line: not empty and without a CRLF. A single carriage return or line feed is no break.
  ghost predicate IsLine(s: string) {
    s != "" && Without(s, CRLF)
  }

  ghost predicate AreLines(lines: seq<string>) {
    lines != [] && forall i :: 0 <= i < |lines| ==> IsLine(lines[i])
  }

  // Each line with its CRLF.
  function HeaderText(lines: seq<string>): string {
    if lines == [] then "" else HeaderText(lines[..|lines| - 1]) + lines[|lines| - 1] + CRLF
  }

  // A message: header lines, the blank line, and a body of at most one line.
  function Message(lines: seq<string>, body: string): string
    requires lines != []
  {
    Join(lines + ["", body], CRLF)
  }

  lemma {:induction false} DropTrailingIs(parts: seq<string>, keep: nat)
    requires keep <= |parts| && (keep > 0 ==> parts[keep - 1] != "")
    requires forall i :: keep <= i < |parts| ==> parts[i] == ""
    ensures DropTrailingEmpty(parts) == parts[..keep]
    decreases |parts|
  {
    if |parts| > keep {
      DropTrailingIs(parts[..|parts| - 1], keep);
      assert parts[..|parts| - 1][..keep] == parts[..keep];
    } else {
      assert parts[..keep] == parts;
    }
  }

  lemma {:induction false} FrameOfHeader(lines: seq<string>, all: seq<string>, n: nat)
    requires AreLines(lines) && n <= |lines| && lines <= all
    ensures FrameOf(all, n) == Frame(HeaderText(lines[..n]), "", 0)
  {
    if n > 0 {
      FrameOfHeader(lines, all, n - 1);
      assert lines[..n][..n - 1] == lines[..n - 1];
      assert all[n - 1] == lines[n - 1];
    }
  }

  // Splitting a rendered message recovers the header lines and the body.
  lemma FramingRoundTrip(lines: seq<string>, body: string)
    requires AreLines(lines) && Without(body, CRLF)
    ensures var split := JavaSplit(Message(lines, body), CRLF);
      var f := FrameOf(split, |split|);
      f.header == HeaderText(lines) && f.body == body
  {
    hide Split, FrameOf;
    var all := lines + ["", body];
    SplitOfJoin(all, CRLF);
    var n := |lines|;
    assert lines[..n] == lines;
    if body == "" {
      DropTrailingIs(all, n);
      assert all[..n] == lines;
      FrameOfHeader(lines, lines, n);
    } else {
      DropTrailingIs(all, n + 2);
      assert all[..n + 2] == all;
      FrameOfHeader(lines, all, n);
      FrameOfBody(all, n);
    }
  }

  lemma FrameOfBody(all: seq<string>, n: nat)
    requires n > 0 && |all| == n + 2 && all[n] == "" && all[n + 1] != ""
    requires FrameOf(all, n).emptyIndex == 0 && FrameOf(all, n).body == ""
    ensures FrameOf(all, n + 2) == FrameOf(all, n).(emptyIndex := n, body := all[n + 1])
  {
    assert FrameOf(all, n + 1) == FrameOf(all, n).(emptyIndex := n);
    assert "" + all[n + 1] == all[n + 1];
  }

  function Repeated(s: string, n: nat): string {
    if n == 0 then "" else Repeated(s, n - 1) + s
  }

  lemma {:induction false} FrameOfBodies(lines: seq<string>, bodies: seq<string>, k: nat)
    requires AreLines(lines) && AreLines(bodies) && k <= |bodies|
    ensures FrameOf(lines + [""] + bodies, |lines| + 1 + k) ==
      Frame(HeaderText(lines), Repeated(bodies[0], k), |lines|)
  {
    var all, n := lines + [""] + bodies, |lines|;
    if k == 0 {
      FrameOfHeader(lines, all, n);
      assert lines[..n] == lines;
    } else {
      FrameOfBodies(lines, bodies, k - 1);
      assert all[n + k] == bodies[k - 1] && all[n + 1] == bodies[0];
    }
  }

  lemma {:induction false} RepeatedStarts(s: string, n: nat)
    requires n >= 2
    ensures s + s <= Repeated(s, n)
    ensures |s| == 1 ==> |Repeated(s, n)| == n
  {
    if n > 2 {
      RepeatedStarts(s, n - 1);
    } else {
      assert Repeated(s, 1) == "" + s == s;
    }
  }

  lemma SecondCopy(s: string, n: nat)
    requires n >= 2 && |s| > 1
    ensures |Repeated(s, n)| > |s| + 1 && Repeated(s, n)[|s|] == s[0] && Repeated(s, n)[|s| + 1] == s[1]
  {
    RepeatedStarts(s, n);
    hide Repeated;
    assert (s + s)[|s|] == s[0] && (s + s)[|s| + 1] == s[1];
  }

  lemma {:induction false} JoinedLength(bodies: seq<string>)
    requires AreLines(bodies)
    ensures |Join(bodies, CRLF)| >= 3 * |bodies| - 2
  {
    assert IsLine(bodies[0]);
    if |bodies| > 1 {
      JoinedLength(bodies[1..]);
    }
  }

  lemma FirstBreak(bodies: seq<string>)
    requires |bodies| > 1
    ensures var joined, n := Join(bodies, CRLF), |bodies[0]|;
      |joined| > n + 1 && joined[n] == '\r' && joined[n + 1] == '\n'
  {
  }

  // Several lines are never the first of them repeated: the line would have to begin with
  // the CRLF that follows it.
  lemma JoinedIsNotRepeated(bodies: seq<string>)
    requires AreLines(bodies) && |bodies| > 1
    ensures Join(bodies, CRLF) != Repeated(bodies[0], |bodies|)
  {
    hide Repeated, IsAt, Join;
    var b := bodies[0];
    assert IsLine(b);
    BreakIs(b, 0);
    RepeatedStarts(b, |bodies|);
    JoinedLength(bodies);
    FirstBreak(bodies);
    if |b| > 1 {
      SecondCopy(b, |bodies|);
    }
  }

  // A body of several lines comes out as its first line, once for every line. So the body
  // is recovered exactly when it is a single line.
  lemma BodyIsRecoveredIff(lines: seq<string>, bodies: seq<string>)
    requires AreLines(lines) && AreLines(bodies)
    ensures var split := JavaSplit(Join(lines + [""] + bodies, CRLF), CRLF);
      var f := FrameOf(split, |split|);
      && f.header == HeaderText(lines) && f.body == Repeated(bodies[0], |bodies|)
      && (f.body == Join(bodies, CRLF) <==> |bodies| == 1)
  {
    hide JavaSplit, FrameOf, HeaderText;
    var all := lines + [""] + bodies;
    assert IsLine(bodies[|bodies| - 1]);
    JavaSplitOfJoin(all, CRLF);
    FrameOfBodies(lines, bodies, |bodies|);
    assert Repeated(bodies[0], 1) == "" + bodies[0] == bodies[0];
    if |bodies| > 1 {
      JoinedIsNotRepeated(bodies);
    }
  }

  // The body lines a and b are taken for aa.
  lemma BodyExample(lines: seq<string>)
    requires AreLines(lines)
    ensures var split := JavaSplit(Join(lines + [""] + ["a", "b"], CRLF), CRLF);
      FrameOf(split, |split|).body == "aa"
  {
    WithoutCharacter("a", CRLF);
    WithoutCharacter("b", CRLF);
    BodyIsRecoveredIff(lines, ["a", "b"]);
    assert Repeated("a", 1) == "" + "a" == "a";
    assert Repeated("a", 2) == "a" + "a";
  }

  // Splitting the header text again gives the lines back.
  lemma {:induction false} HeaderTextJoins(lines: seq<string>)
    requires lines != []
    ensures HeaderText(lines) == Join(lines + [""], CRLF)
  {
    var n := |lines| - 1;
    if n == 0 {
      assert lines[..0] == [] && (lines + [""])[1..] == [""];
    } else {
      HeaderTextJoins(lines[..n]);
      JoinLast(lines[..n], lines[n]);
      assert lines[..n] + [lines[n]] == lines;
    }
  }

  lemma {:induction false} JoinLast(a: seq<string>, x: string)
    ensures a != [] ==> Join(a + [""], CRLF) + x + CRLF == Join(a + [x] + [""], CRLF)
  {
    if a != [] {
      assert (a + [""])[1..] == a[1..] + [""];
      assert (a + [x] + [""])[1..] == a[1..] + [x] + [""];
      if |a| == 1 {
        assert a[1..] + [x] + [""] == [x, ""] && [x, ""][1..] == [""] && a[1..] + [""] == [""];
      } else {
        JoinLast(a[1..], x);
      }
    }
  }

  lemma HeaderSplitsAgain(lines: seq<string>)
    requires AreLines(lines)
    ensures JavaSplit(HeaderText(lines), CRLF) == lines
  {
    hide Split, Join, HeaderText;
    HeaderTextJoins(lines);
    var all := lines + [""];
    SplitOfJoin(all, CRLF);
    DropTrailingIs(all, |lines|);
    assert all[..|lines|] == lines;
  }

  // ---- Parameters ----

  datatype Pair = Pair(key: string, value: string)

  // HashMap.put in order: the last duplicate wins.
  function MapOf(pairs: seq<Pair>): map<string, string> {
    if pairs == [] then map[]
    else MapOf(pairs[..|pairs| - 1])[pairs[|pairs| - 1].key := pairs[|pairs| - 1].value]
  }

  // The pairs that the pieces spell, if each of them has a key and a value.
  function PairsOf(pieces: seq<string>, n: nat): Option<seq<Pair>>
    requires n <= |pieces|
  {
    if n == 0 then Some([])
    else
      var before, kv := PairsOf(pieces, n - 1), JavaSplit(pieces[n - 1], "=");
      if before.None? || |kv| < 2 then None else Some(before.value + [Pair(kv[0], kv[1])])
  }

  // paramParser; None is the HTTP400Exception. Only the first two parts of a piece count.
  method ParamParser(body: string) returns (r: Option<map<string, string>>)
    ensures var pieces := JavaSplit(body, "&");
      var pairs := PairsOf(pieces, |pieces|);
      r == if pairs.None? then None else Some(MapOf(pairs.value))
  {
    hide JavaSplit;
    var split := JavaSplit(body, "&");
    var m: map<string, string> := map[];
    ghost var pairs: seq<Pair> := [];
    var i := 0;
    while i < |split|
      invariant 0 <= i <= |split| && PairsOf(split, i) == Some(pairs) && m == MapOf(pairs)
    {
      var kv := JavaSplit(split[i], "=");
      if |kv| < 2 {
        NoPairs(split, i + 1, |split|);
        return None;
      }
      ghost var p := Pair(kv[0], kv[1]);
      assert (pairs + [p])[..|pairs|] == pairs;
      m := m[kv[0] := kv[1]];
      pairs := pairs + [p];
      i := i + 1;
    }
    return Some(m);
  }

  lemma {:induction false} NoPairs(pieces: seq<string>, i: nat, n: nat)
    requires i <= n <= |pieces| && PairsOf(pieces, i).None?
    ensures PairsOf(pieces, n).None?
    decreases n - i
  {
    if i < n {
      NoPairs(pieces, i + 1, n);
    }
  }

  function Spell(p: Pair): string {
    p.key + "=" + p.value
  }

  function Spellings(pairs: seq<Pair>): (r: seq<string>)
    ensures |r| == |pairs| && forall i :: 0 <= i < |pairs| ==> r[i] == Spell(pairs[i])
  {
    if pairs == [] then [] else [Spell(pairs[0])] + Spellings(pairs[1..])
  }

  // key=value&key=value
  function Query(pairs: seq<Pair>): string {
    if pairs == [] then "" else Join(Spellings(pairs), "&")
  }

  predicate IsPlain(p: Pair) {
    '=' !in p.key && '&' !in p.key && '=' !in p.value && '&' !in p.value
  }

  lemma SpellSplits(p: Pair)
    requires IsPlain(p)
    ensures |JavaSplit(Spell(p), "=")| >= 2 <==> p.value != ""
    ensures p.value != "" ==> JavaSplit(Spell(p), "=") == [p.key, p.value]
  {
    var parts := [p.key, p.value];
    assert parts[1..] == [p.value] && Join(parts, "=") == Spell(p);
    WithoutCharacter(p.key, "=");
    WithoutCharacter(p.value, "=");
    SplitOfJoin(parts, "=");
    hide Split;
    if p.value == "" {
      assert |DropTrailingEmpty(parts)| >= 2 ==> DropTrailingEmpty(parts) == parts;
    } else {
      DropTrailingIs(parts, 2);
      assert parts[..2] == parts;
    }
  }

  lemma {:induction false} PairsOfSpellings(pairs: seq<Pair>, n: nat)
    requires n <= |pairs| && forall i :: 0 <= i < n ==> IsPlain(pairs[i]) && pairs[i].value != ""
    ensures PairsOf(Spellings(pairs), n) == Some(pairs[..n])
  {
    hide JavaSplit, Spell, IsPlain, Spellings;
    if n > 0 {
      PairsOfSpellings(pairs, n - 1);
      SpellSplits(pairs[n - 1]);
      assert pairs[..n] == pairs[..n - 1] + [Pair(pairs[n - 1].key, pairs[n - 1].value)];
    }
  }

  // One empty value is enough for a refusal.
  lemma PairsOfEmptyValue(pairs: seq<Pair>, i: nat)
    requires i < |pairs| && IsPlain(pairs[i]) && pairs[i].value == ""
    ensures PairsOf(Spellings(pairs), |pairs|).None?
  {
    hide JavaSplit, Spell, IsPlain;
    SpellSplits(pairs[i]);
    assert Spellings(pairs)[i] == Spell(pairs[i]);
    NoPairs(Spellings(pairs), i + 1, |pairs|);
  }

  // Joined parts are found again when the last one is not empty.
  lemma JavaSplitOfJoin(parts: seq<string>, sep: string)
    requires parts != [] && sep != "" && parts[|parts| - 1] != ""
    requires forall i :: 0 <= i < |parts| ==> Without(parts[i], sep)
    requires forall i :: 0 <= i < |sep| - 1 ==> sep[i] != sep[|sep| - 1]
    ensures JavaSplit(Join(parts, sep), sep) == parts
  {
    hide Split, Join;
    SplitOfJoin(parts, sep);
    DropTrailingIs(parts, |parts|);
    assert parts[..|parts|] == parts;
  }

  lemma SpellingIsPlain(p: Pair)
    requires IsPlain(p)
    ensures '&' !in Spell(p) && Spell(p) != ""
  {
  }

  lemma QuerySplits(pairs: seq<Pair>)
    requires pairs != [] && forall i :: 0 <= i < |pairs| ==> IsPlain(pairs[i])
    ensures JavaSplit(Query(pairs), "&") == Spellings(pairs)
  {
    hide JavaSplit, Join, Spellings, Spell;
    var parts := Spellings(pairs);
    forall i | 0 <= i < |parts|
      ensures Without(parts[i], "&") && parts[i] != ""
    {
      SpellingIsPlain(pairs[i]);
      WithoutCharacter(parts[i], "&");
    }
    JavaSplitOfJoin(parts, "&");
  }

  // Parsing undoes rendering exactly when there is a parameter and every value is non-empty;
  // otherwise the request is refused. Keys may be empty or repeated.
  lemma QueryRoundTripIff(pairs: seq<Pair>)
    requires forall i :: 0 <= i < |pairs| ==> IsPlain(pairs[i])
    ensures var pieces := JavaSplit(Query(pairs), "&");
      PairsOf(pieces, |pieces|) ==
        if pairs != [] && forall i :: 0 <= i < |pairs| ==> pairs[i].value != "" then Some(pairs) else None
  {
    hide JavaSplit, Spellings, IsPlain;
    if pairs == [] {
      EmptySplits("&");
      EmptySplits("=");
      assert PairsOf([""], 1).None?;
    } else {
      QuerySplits(pairs);
      if i :| 0 <= i < |pairs| && pairs[i].value == "" {
        PairsOfEmptyValue(pairs, i);
      } else {
        PairsOfSpellings(pairs, |pairs|);
        assert pairs[..|pairs|] == pairs;
      }
    }
  }

  // k= alone is refused.
  lemma EmptyValueExample()
    ensures Query([Pair("k", "")]) == "k=" && ParamsOf("k=").None?
  {
    QueryRoundTripIff([Pair("k", "")]);
    assert Spellings([Pair("k", "")]) == [Spell(Pair("k", ""))] + [];
    assert Spell(Pair("k", "")) == "k" + "=" + "" == "k=";
  }

  lemma EmptySplits(sep: string)
    requires sep != ""
    ensures JavaSplit("", sep) == [""]
  {
    assert !IsAt("", 0, sep);
  }

  lemma {:induction false} LastDuplicateWins(pairs: seq<Pair>, i: nat)
    requires i < |pairs| && forall j :: i < j < |pairs| ==> pairs[j].key != pairs[i].key
    ensures pairs[i].key in MapOf(pairs) && MapOf(pairs)[pairs[i].key] == pairs[i].value
    decreases |pairs|
  {
    if i < |pairs| - 1 {
      LastDuplicateWins(pairs[..|pairs| - 1], i);
    }
  }

  // ---- The response ----

  // An entry of the LinkedHashMap; a value may be null.
  datatype Entry = Entry(key: string, value: Option<string>)

  // put keeps the place of a key that is already there.
  function PutEntry(m: seq<Entry>, key: string, value: Option<string>): (r: seq<Entry>)
    ensures |m| <= |r| <= |m| + 1
  {
    if m == [] then [Entry(key, value)]
    else if m[0].key == key then [Entry(key, value)] + m[1..]
    else [m[0]] + PutEntry(m[1..], key, value)
  }

  // StringBuffer.append of a possibly null string.
  function Shown(v: Option<string>): string {
    if v.None? then "null" else v.value
  }

  function EntryText(e: Entry): string {
    if e.key == "BODY" then CRLF + (if e.value.None? then "" else e.value.value)
    else e.key + ": " + Shown(e.value) + CRLF
  }

  function EntriesText(m: seq<Entry>): string {
    if m == [] then "" else EntriesText(m[..|m| - 1]) + EntryText(m[|m| - 1])
  }

  function Protocol(m: seq<Entry>): string
    requires |m| >= 2
  {
    Shown(m[0].value) + " " + Shown(m[1].value) + CRLF + EntriesText(m[2..])
  }

  lemma EntriesStep(m: seq<Entry>, i: nat)
    requires i < |m|
    ensures EntriesText(m[..i + 1]) == EntriesText(m[..i]) + EntryText(m[i])
  {
    assert m[..i + 1][..i] == m[..i];
  }

  // makeProtocol
  method MakeProtocol(resData: seq<Entry>) returns (text: string)
    requires |resData| >= 2
    ensures text == Protocol(resData)
  {
    hide EntriesText;
    text := Shown(resData[0].value) + " " + Shown(resData[1].value) + CRLF;
    ghost var line, rest := text, resData[2..];
    NoEntries(rest);
    var i := 2;
    while i < |resData|
      invariant 2 <= i <= |resData| && text == line + EntriesText(rest[..i - 2])
    {
      var e := resData[i];
      EntriesStep(rest, i - 2);
      ghost var before := text;
      if e.value.Some? && e.key == "BODY" {
        text := text + CRLF;
        text := text + e.value.value;
      } else if e.value.None? && e.key == "BODY" {
        text := text + CRLF;
      } else {
        text := text + e.key + ": " + Shown(e.value) + CRLF;
      }
      assert text == before + EntryText(e);
      i := i + 1;
    }
    assert rest[..|resData| - 2] == rest;
  }

  lemma NoEntries(m: seq<Entry>)
    ensures EntriesText(m[..0]) == ""
  {
  }

  // ---- Deciding on the response ----

  predicate IsDelimiter(c: char) {
    c == ' ' || c == '\t' || c == '\n' || c == '\r' || c == 12 as char
  }

  // StringTokenizer with its default delimiters.
  function Words(s: string): seq<string>
    decreases |s|
  {
    if s == "" then []
    else if IsDelimiter(s[0]) then Words(s[1..])
    else
      var k := WordEnd(s);
      [s[..k]] + Words(s[k..])
  }

  function WordEnd(s: string): (k: nat)
    ensures k <= |s| && (s != "" && !IsDelimiter(s[0]) ==> k > 0)
  {
    if s == "" || IsDelimiter(s[0]) then 0 else 1 + WordEnd(s[1..])
  }

  // What the file system says about a path: it does not exist, opening it fails with a
  // message, reading it fails, or these are its bytes.
  datatype File = Missing | NotOpened(message: string) | Unreadable | Found(bytes: seq<Utf8.Byte>)

  // The configuration, the files, the order in which a HashMap yields its keys, how many
  // bytes a character takes in the platform's encoding, and how the library reads bytes that
  // are no UTF-8.
  datatype World = World(version: string, pages: map<string, string>, files: string -> File,
                         order: map<string, string> -> seq<string>, width: char -> nat,
                         repaired: seq<Utf8.Byte> -> string)
  {
    // new String(fileArr, "UTF-8")
    function Text(bytes: seq<Utf8.Byte>): string {
      var t := Utf8.Decode(bytes);
      if t.Some? then t.value else repaired(bytes)
    }

    function Page(code: string): Option<string> {
      if code in pages then Some(pages[code]) else None
    }

    // A HashMap yields each of its keys once.
    ghost predicate Fair() {
      forall m: map<string, string> :: multiset(order(m)) == multiset(m.Keys)
    }

    function ByteLength(s: string): nat {
      if s == "" then 0 else ByteLength(s[..|s| - 1]) + width(s[|s| - 1])
    }
  }

  function Base(w: World): (r: seq<Entry>)
    ensures |r| >= 3
  {
    [Entry("HTTP_VERSION", Some(w.version)), Entry("STATUS", Some("200 OK")),
     Entry("Content-Type", Some(HTML_TYPE))]
  }

  function Refusal(w: World, status: string, code: string): (r: seq<Entry>)
    ensures |r| >= 3
  {
    PutEntry(PutEntry(Base(w), "STATUS", Some(status)), "BODY", w.Page(code))
  }

  // The exceptions with a status line of their own.
  datatype Fault = BadRequest | NotFound | MethodNotAllowed | UriTooLong | VersionNotSupported

  function StatusLine(f: Fault): string {
    match f
    case BadRequest => "400 Bad Request"
    case NotFound => "404 Not Found"
    case MethodNotAllowed => "405 Method Not Allowed"
    case UriTooLong => "414 Request-URI Too Long"
    case VersionNotSupported => "505 HTTP Version Not Supported"
  }

  function PageCode(f: Fault): string {
    match f
    case BadRequest => "400"
    case NotFound => "404"
    case MethodNotAllowed => "405"
    case UriTooLong => "414"
    case VersionNotSupported => "505"
  }

  function Refused(w: World, f: Fault): (r: seq<Entry>)
    ensures |r| >= 3
  {
    Refusal(w, StatusLine(f), PageCode(f))
  }

  // The lines of a POST response.
  function Echo(m: map<string, string>, keys: seq<string>): string {
    if keys == [] then ""
    else
      var key := keys[|keys| - 1];
      Echo(m, keys[..|keys| - 1]) + key + " -> " + (if key in m then m[key] else "null") + CRLF
  }

  function Plain(w: World, echo: string): (r: seq<Entry>)
    ensures |r| >= 3
  {
    PutEntry(PutEntry(PutEntry(Base(w), "Content-Type", Some(PLAIN_TYPE)),
                      "Content-length", Some(Decimal(w.ByteLength(echo)))), "BODY", Some(echo))
  }

  function Html(w: World, bytes: seq<Utf8.Byte>): (r: seq<Entry>)
    ensures |r| >= 3
  {
    PutEntry(PutEntry(Base(w), "Content-length", Some(Decimal(|bytes|))), "BODY", Some(w.Text(bytes)))
  }

  predicate FieldsAreWellFormed(lines: seq<string>) {
    forall i :: 1 <= i < |lines| ==> |JavaSplit(lines[i], ": ")| == 2
  }

  function ParamsOf(text: string): Option<map<string, string>> {
    var pieces := JavaSplit(text, "&");
    var pairs := PairsOf(pieces, |pieces|);
    if pairs.None? then None else Some(MapOf(pairs.value))
  }

  function UpToQuestion(uri: string): string {
    if uri == "" || uri[0] == '?' then "" else [uri[0]] + UpToQuestion(uri[1..])
  }

  // String.length: UTF-16 units.
  function JavaLength(s: string): nat {
    if s == "" then 0 else (if s[0] as int < 0x1_0000 then 1 else 2) + JavaLength(s[1..])
  }

  // Which response a request line and a body get: the checks in the order in which they
  // are made.
  function Answer(w: World, words: seq<string>, body: string): (r: seq<Entry>)
    ensures |r| >= 3
  {
    if |words| < 2 then Refused(w, BadRequest)
    else if JavaLength(words[1]) > 100 then Refused(w, UriTooLong)
    else if |words| < 3 then Refused(w, BadRequest)
    else if words[2] != w.version then Refused(w, VersionNotSupported)
    else match w.files(UpToQuestion(words[1]))
      case Missing => Refused(w, NotFound)
      case NotOpened(message) => Refusal(w, message, "404")
      case Unreadable => Base(w)
      case Found(bytes) =>
        if words[0] == "GET" then
          if '?' in words[1] && ParamsOf(words[1]).None? then Refused(w, BadRequest)
          else Html(w, bytes)
        else if words[0] == "POST" then
          if ParamsOf(body).None? then Refused(w, BadRequest)
          else Plain(w, EchoOf(w, body))
        else Refused(w, MethodNotAllowed)
  }

  function EchoOf(w: World, body: string): string
    requires ParamsOf(body).Some?
  {
    Echo(ParamsOf(body).value, w.order(ParamsOf(body).value))
  }

  // The lines of the header as the parser sees them, the words of the first one, the body.
  function HeaderLines(text: string): seq<string> {
    var split := JavaSplit(text, CRLF);
    JavaSplit(FrameOf(split, |split|).header, CRLF)
  }

  function RequestWords(text: string): seq<string> {
    var lines := HeaderLines(text);
    Words(if lines == [] then "" else lines[0])
  }

  function RequestBody(text: string): string {
    var split := JavaSplit(text, CRLF);
    FrameOf(split, |split|).body
  }

  function Respond(w: World, text: string): (r: seq<Entry>)
    ensures |r| >= 3
  {
    if FieldsAreWellFormed(HeaderLines(text)) then Answer(w, RequestWords(text), RequestBody(text))
    else Refused(w, BadRequest)
  }

  // ---- What the answer means ----

  // Every piece of a parameter list has a key and a value.
  predicate HasValues(text: string) {
    var pieces := JavaSplit(text, "&");
    forall i :: 0 <= i < |pieces| ==> |JavaSplit(pieces[i], "=")| >= 2
  }

  lemma {:induction false} PairsOfIff(pieces: seq<string>, n: nat)
    requires n <= |pieces|
    ensures PairsOf(pieces, n).Some? <==> forall i :: 0 <= i < n ==> |JavaSplit(pieces[i], "=")| >= 2
    ensures PairsOf(pieces, n).Some? ==> |PairsOf(pieces, n).value| == n
    ensures PairsOf(pieces, n).Some? ==>
      forall i :: 0 <= i < n ==>
        PairsOf(pieces, n).value[i] == Pair(JavaSplit(pieces[i], "=")[0], JavaSplit(pieces[i], "=")[1])
  {
    hide JavaSplit;
    if n > 0 {
      PairsOfIff(pieces, n - 1);
    }
  }

  lemma ParamsOfIff(text: string)
    ensures ParamsOf(text).Some? <==> HasValues(text)
  {
    hide JavaSplit;
    PairsOfIff(JavaSplit(text, "&"), |JavaSplit(text, "&")|);
  }

  // The causes of the responses.
  predicate TooLong(words: seq<string>) {
    |words| >= 2 && JavaLength(words[1]) > 100
  }

  predicate Incomplete(words: seq<string>) {
    |words| < 2 || (|words| == 2 && JavaLength(words[1]) <= 100)
  }

  predicate WrongVersion(w: World, words: seq<string>) {
    |words| >= 3 && JavaLength(words[1]) <= 100 && words[2] != w.version
  }

  // A request line that asks for a file; words behind the third are ignored.
  predicate AsksFor(w: World, words: seq<string>) {
    |words| >= 3 && JavaLength(words[1]) <= 100 && words[2] == w.version
  }

  function FileOf(w: World, words: seq<string>): File
    requires AsksFor(w, words)
  {
    w.files(UpToQuestion(words[1]))
  }

  // A request line that passes every check but that of the method.
  predicate Acceptable(w: World, words: seq<string>) {
    AsksFor(w, words) && FileOf(w, words).Found?
  }

  predicate GoodGet(w: World, words: seq<string>) {
    Acceptable(w, words) && words[0] == "GET" && ('?' in words[1] ==> HasValues(words[1]))
  }

  predicate GoodPost(w: World, words: seq<string>, body: string) {
    Acceptable(w, words) && words[0] == "POST" && HasValues(body)
  }

  predicate BadParameters(w: World, words: seq<string>, body: string) {
    && Acceptable(w, words)
    && ((words[0] == "GET" && '?' in words[1] && !HasValues(words[1])) || (words[0] == "POST" && !HasValues(body)))
  }

  predicate WrongMethod(w: World, words: seq<string>) {
    Acceptable(w, words) && words[0] != "GET" && words[0] != "POST"
  }

  // A file that cannot be opened, such as a directory; the exception message becomes the
  // status line.
  predicate OpenFailed(w: World, words: seq<string>, status: string) {
    AsksFor(w, words) && FileOf(w, words) == NotOpened(status)
  }

  predicate HasStatus(r: seq<Entry>, status: string) {
    |r| >= 2 && r[1] == Entry("STATUS", Some(status))
  }

  predicate IsPlainText(r: seq<Entry>) {
    |r| >= 3 && r[2] == Entry("Content-Type", Some(PLAIN_TYPE))
  }

  predicate HasLength(r: seq<Entry>) {
    |r| == 5 && r[3].key == "Content-length"
  }

  // The status is there exactly when its cause is, and then the page for it is the body. The
  // message about a file that cannot be opened may be any text.
  ghost predicate RefusedFor(w: World, words: seq<string>, r: seq<Entry>, f: Fault, cause: bool) {
    && (HasStatus(r, StatusLine(f)) <==> cause || OpenFailed(w, words, StatusLine(f)))
    && (cause ==> r == Refused(w, f))
  }

  // Everything a caller can learn from the response, in no order of checks.
  ghost predicate Explained(w: World, words: seq<string>, body: string, r: seq<Entry>) {
    && (IsPlainText(r) <==> GoodPost(w, words, body))
    && (GoodPost(w, words, body) ==> ParamsOf(body).Some? && r == Plain(w, EchoOf(w, body)))
    && (HasLength(r) && !IsPlainText(r) <==> GoodGet(w, words))
    && (GoodGet(w, words) ==> r == Html(w, FileOf(w, words).bytes))
    && RefusedFor(w, words, r, BadRequest, Incomplete(words) || BadParameters(w, words, body))
    && RefusedFor(w, words, r, UriTooLong, TooLong(words))
    && RefusedFor(w, words, r, VersionNotSupported, WrongVersion(w, words))
    && RefusedFor(w, words, r, NotFound, AsksFor(w, words) && FileOf(w, words).Missing?)
    && RefusedFor(w, words, r, MethodNotAllowed, WrongMethod(w, words))
    && (forall status :: OpenFailed(w, words, status) ==> r == Refusal(w, status, "404"))
    && (r == Base(w) <==> AsksFor(w, words) && FileOf(w, words).Unreadable?)
  }

  lemma RefusalIs(w: World, status: string, code: string)
    ensures Refusal(w, status, code) ==
      [Entry("HTTP_VERSION", Some(w.version)), Entry("STATUS", Some(status)),
       Entry("Content-Type", Some(HTML_TYPE)), Entry("BODY", w.Page(code))]
  {
    var base, st := Base(w), Some(status);
    assert base[1..] == [base[1], base[2]] && base[1..][1..] == [base[2]];
    assert PutEntry(base[1..], "STATUS", st) == [Entry("STATUS", st), base[2]];
    var m := PutEntry(base, "STATUS", st);
    assert m == [base[0], Entry("STATUS", st), base[2]];
    PutNewKey(m, "BODY", w.Page(code));
  }

  lemma HtmlIs(w: World, bytes: seq<Utf8.Byte>)
    ensures Html(w, bytes) == OkMap(w, HTML_TYPE, |bytes|, w.Text(bytes))
  {
    PutNewKey(Base(w), "Content-length", Some(Decimal(|bytes|)));
    PutNewKey(Base(w) + [Entry("Content-length", Some(Decimal(|bytes|)))], "BODY", Some(w.Text(bytes)));
  }

  lemma TypesDiffer()
    ensures PLAIN_TYPE != HTML_TYPE
  {
    assert PLAIN_TYPE[5] == 'p' && HTML_TYPE[5] == 'h';
  }

  lemma StatusLinesDiffer(f: Fault, g: Fault)
    ensures StatusLine(f) == StatusLine(g) ==> f == g
    ensures StatusLine(f) != "200 OK"
  {
    assert StatusLine(f)[0] == (if f.VersionNotSupported? then '5' else '4') && "200 OK"[0] == '2';
    assert !f.VersionNotSupported? ==> StatusLine(f)[1] == if f.UriTooLong? then '1' else '0';
    assert !f.VersionNotSupported? && !f.UriTooLong? ==>
      StatusLine(f)[2] == match f { case BadRequest => '0' case NotFound => '4' case _ => '5' };
    assert StatusLine(g)[0] == (if g.VersionNotSupported? then '5' else '4');
    assert !g.VersionNotSupported? ==> StatusLine(g)[1] == if g.UriTooLong? then '1' else '0';
    assert !g.VersionNotSupported? && !g.UriTooLong? ==>
      StatusLine(g)[2] == match g { case BadRequest => '0' case NotFound => '4' case _ => '5' };
  }

  // What can be told apart from outside.
  lemma RefusalShows(w: World, status: string, code: string)
    ensures forall st :: HasStatus(Refusal(w, status, code), st) <==> st == status
    ensures !IsPlainText(Refusal(w, status, code)) && !HasLength(Refusal(w, status, code))
    ensures Refusal(w, status, code) != Base(w)
  {
    hide Refusal;
    RefusalIs(w, status, code);
    TypesDiffer();
  }

  lemma OthersShow(w: World, echo: string, bytes: seq<Utf8.Byte>)
    ensures forall st :: HasStatus(Plain(w, echo), st) <==> st == "200 OK"
    ensures forall st :: HasStatus(Html(w, bytes), st) <==> st == "200 OK"
    ensures forall st :: HasStatus(Base(w), st) <==> st == "200 OK"
    ensures IsPlainText(Plain(w, echo)) && !IsPlainText(Html(w, bytes)) && !IsPlainText(Base(w))
    ensures HasLength(Html(w, bytes)) && !HasLength(Base(w))
    ensures Plain(w, echo) != Base(w) && Html(w, bytes) != Base(w)
  {
    hide Plain, Html;
    PlainIs(w, echo);
    HtmlIs(w, bytes);
    TypesDiffer();
  }

  lemma FaultShows(w: World, f: Fault)
    ensures forall g: Fault :: HasStatus(Refused(w, f), StatusLine(g)) <==> g == f
    ensures !IsPlainText(Refused(w, f)) && !HasLength(Refused(w, f)) && Refused(w, f) != Base(w)
  {
    hide Refusal, StatusLine, PageCode, HasStatus, IsPlainText, HasLength, Base;
    RefusalShows(w, StatusLine(f), PageCode(f));
    forall g: Fault
      ensures StatusLine(f) == StatusLine(g) ==> f == g
    {
      StatusLinesDiffer(f, g);
    }
  }

  // The checks give every response its cause and every cause its response.
  lemma AnswerIsExplained(w: World, words: seq<string>, body: string)
    ensures Explained(w, words, body, Answer(w, words, body))
  {
    hide Refused, Refusal, Plain, Html, Base, ParamsOf, HasValues, EchoOf, UpToQuestion, HasStatus, IsPlainText,
      HasLength, StatusLine;
    forall f: Fault
      ensures (forall g: Fault :: HasStatus(Refused(w, f), StatusLine(g)) <==> g == f)
      ensures !IsPlainText(Refused(w, f)) && !HasLength(Refused(w, f)) && Refused(w, f) != Base(w)
      ensures StatusLine(f) != "200 OK"
    {
      FaultShows(w, f);
      StatusLinesDiffer(f, f);
    }
    ParamsOfIff(body);
    var echo := if ParamsOf(body).Some? then EchoOf(w, body) else "";
    if AsksFor(w, words) {
      ParamsOfIff(words[1]);
      match FileOf(w, words)
      case Found(bytes) => OthersShow(w, echo, bytes);
      case NotOpened(message) => RefusalShows(w, message, "404");
      case _ => OthersShow(w, echo, []);
    }
  }

  // The causes leave no choice of a response.
  lemma ExplanationIsUnique(w: World, words: seq<string>, body: string, r: seq<Entry>, s: seq<Entry>)
    requires Explained(w, words, body, r) && Explained(w, words, body, s)
    ensures r == s
  {
    hide Refused, Refusal, Plain, Html, Base, ParamsOf, HasValues, EchoOf, UpToQuestion, HasStatus, IsPlainText,
      HasLength, StatusLine;
    if AsksFor(w, words) && FileOf(w, words).NotOpened? {
      assert OpenFailed(w, words, FileOf(w, words).message);
    }
  }

  // The same from the request text on: a header with a malformed field is refused with 400,
  // and every other text gets the response of its request line and body.
  lemma ResponseIsExplained(w: World, text: string)
    ensures FieldsAreWellFormed(HeaderLines(text)) ==>
      Explained(w, RequestWords(text), RequestBody(text), Respond(w, text))
    ensures !FieldsAreWellFormed(HeaderLines(text)) ==> Respond(w, text) == Refused(w, BadRequest)
    ensures IsPlainText(Respond(w, text)) <==>
      FieldsAreWellFormed(HeaderLines(text)) && GoodPost(w, RequestWords(text), RequestBody(text))
  {
    hide Answer, HeaderLines, RequestWords, RequestBody, FieldsAreWellFormed, GoodPost, Refused, IsPlainText;
    AnswerIsExplained(w, RequestWords(text), RequestBody(text));
    FaultShows(w, BadRequest);
  }

  // ---- Content-length ----

  // The response map of an accepted request, and its status line and fields as lines.
  function OkMap(w: World, contentType: string, length: nat, body: string): seq<Entry> {
    [Entry("HTTP_VERSION", Some(w.version)), Entry("STATUS", Some("200 OK")), Entry("Content-Type", Some(contentType)),
     Entry("Content-length", Some(Decimal(length))), Entry("BODY", Some(body))]
  }

  function OkHead(w: World, contentType: string, length: nat): seq<string> {
    [w.version + " " + "200 OK", "Content-Type" + ": " + contentType, "Content-length" + ": " + Decimal(length)]
  }

  lemma PlainIs(w: World, echo: string)
    ensures Plain(w, echo) == OkMap(w, PLAIN_TYPE, w.ByteLength(echo), echo)
  {
    var base, plain := Base(w), Some(PLAIN_TYPE);
    assert base[1..] == [base[1], base[2]] && base[1..][1..] == [base[2]];
    assert PutEntry(base[1..][1..], "Content-Type", plain) == [Entry("Content-Type", plain)];
    assert PutEntry(base[1..], "Content-Type", plain) == [base[1], Entry("Content-Type", plain)];
    var m := PutEntry(base, "Content-Type", plain);
    assert m == [base[0], base[1], Entry("Content-Type", plain)];
    var length := Some(Decimal(w.ByteLength(echo)));
    PutNewKey(m, "Content-length", length);
    PutNewKey(m + [Entry("Content-length", length)], "BODY", Some(echo));
  }

  lemma {:induction false} PutNewKey(m: seq<Entry>, key: string, value: Option<string>)
    requires forall i :: 0 <= i < |m| ==> m[i].key != key
    ensures PutEntry(m, key, value) == m + [Entry(key, value)]
    decreases |m|
  {
    if m != [] {
      PutNewKey(m[1..], key, value);
    }
  }

  lemma ThreeEntries(a: Entry, b: Entry, c: Entry)
    ensures EntriesText([a, b, c]) == EntryText(a) + EntryText(b) + EntryText(c)
  {
    hide EntriesText, EntryText;
    var m := [a, b, c];
    EntriesStep(m, 2);
    EntriesStep(m, 1);
    EntriesStep(m, 0);
    NoEntries(m);
    assert m[..3] == m;
    assert "" + EntryText(a) == EntryText(a);
  }

  lemma JoinThree(a: string, b: string, c: string)
    ensures Join([a, b, c], CRLF) == a + CRLF + (b + CRLF + c)
  {
    assert [a, b, c][1..] == [b, c] && [b, c][1..] == [c];
    assert Join([b, c], CRLF) == b + CRLF + c;
  }

  lemma FieldText(key: string, value: string)
    requires key != "BODY"
    ensures EntryText(Entry(key, Some(value))) == key + ": " + value + CRLF
  {
  }

  lemma OkText(w: World, contentType: string, length: nat, body: string)
    ensures Protocol(OkMap(w, contentType, length, body)) == Join(OkHead(w, contentType, length), CRLF) + BLANK + body
  {
    hide EntriesText, EntryText, Join, Decimal;
    var m := OkMap(w, contentType, length, body);
    assert m[2..] == [m[2], m[3], m[4]];
    ThreeEntries(m[2], m[3], m[4]);
    var head := OkHead(w, contentType, length);
    JoinThree(head[0], head[1], head[2]);
    FieldText("Content-Type", contentType);
    FieldText("Content-length", Decimal(length));
    BodyText(body);
    Regroup(head[0], head[1], head[2], body);
  }

  lemma BodyText(echo: string)
    ensures EntryText(Entry("BODY", Some(echo))) == CRLF + echo
  {
  }

  lemma Regroup(a: string, b: string, c: string, d: string)
    ensures a + CRLF + (b + CRLF + (c + CRLF) + (CRLF + d)) == a + CRLF + (b + CRLF + c) + BLANK + d
  {
  }

  lemma BlankShows(s: string, j: nat)
    ensures IsAt(s, j, BLANK) ==> j + 3 < |s| && s[j] == '\r' && s[j + 2] == '\r'
  {
    assert j + 4 <= |s| ==> s[j..j + 4] == [s[j], s[j + 1], s[j + 2], s[j + 3]];
  }

  lemma IsAtBehind(a: string, b: string, k: nat, m: string)
    ensures IsAt(a + b, |a| + k, m) <==> IsAt(b, k, m)
  {
    assert k + |m| <= |b| ==> (a + b)[|a| + k..|a| + k + |m|] == b[k..k + |m|];
  }

  // The blank line does not begin inside header lines without carriage returns.
  lemma {:induction false} HeadIsClean(lines: seq<string>)
    requires lines != [] && forall i :: 0 <= i < |lines| ==> lines[i] != "" && '\r' !in lines[i]
    ensures Clean(Join(lines, CRLF), BLANK)
    decreases |lines|
  {
    hide IsAt;
    var head, first := Join(lines, CRLF), lines[0];
    var text := head + BLANK;
    if |lines| > 1 {
      HeadIsClean(lines[1..]);
      TailStarts(lines);
      var tail := Join(lines[1..], CRLF);
      var front := first + CRLF;
      assert text == front + (tail + BLANK);
      forall j: nat | j < |head|
        ensures !IsAt(text, j, BLANK)
      {
        BlankShows(text, j);
        if j >= |front| {
          IsAtBehind(front, tail + BLANK, j - |front|, BLANK);
        } else {
          assert text[j] == front[j] && text[|front|] == tail[0];
          assert j < |first| ==> first[j] in first;
        }
      }
    } else {
      forall j: nat | j < |head|
        ensures !IsAt(text, j, BLANK)
      {
        BlankShows(text, j);
        assert text[j] == first[j] && first[j] in first;
      }
    }
  }

  lemma TailStarts(lines: seq<string>)
    requires |lines| > 1 && lines[1] != "" && '\r' !in lines[1]
    ensures Join(lines[1..], CRLF) != "" && Join(lines[1..], CRLF)[0] != '\r'
  {
    assert lines[1..][0] == lines[1] && lines[1][0] in lines[1];
  }

  // The first blank line of an accepted response ends its head, whatever the body holds.
  lemma OkSplits(w: World, contentType: string, length: nat, body: string)
    requires '\r' !in w.version && '\r' !in contentType
    ensures var text, end := Protocol(OkMap(w, contentType, length, body)), |Join(OkHead(w, contentType, length), CRLF)|;
      && Find(text, BLANK) == Some(end) && end + 4 <= |text|
      && text[..end] == Join(OkHead(w, contentType, length), CRLF) && text[end + 4..] == body
  {
    hide Find, Join, Protocol;
    OkText(w, contentType, length, body);
    var head := OkHead(w, contentType, length);
    var d := Decimal(length);
    assert forall c :: c in d ==> c != '\r';
    HeadIsClean(head);
    FindAfterGap(Join(head, CRLF), BLANK, body);
  }

  // A refusal on the wire: the status line, one field, a blank line and the configured page,
  // nothing if there is none.
  lemma RefusalText(w: World, status: string, code: string)
    ensures Protocol(Refusal(w, status, code)) ==
      w.version + " " + status + CRLF + ("Content-Type" + ": " + HTML_TYPE + CRLF)
      + (CRLF + if code in w.pages then w.pages[code] else "")
  {
    hide Refusal, EntriesText, EntryText;
    RefusalIs(w, status, code);
    var m := Refusal(w, status, code);
    assert m[2..] == [m[2], m[3]];
    TwoEntries(m[2], m[3]);
    FieldText("Content-Type", HTML_TYPE);
    PageText(w.Page(code));
    Grouped(w.version + " " + status + CRLF, EntryText(m[2]), EntryText(m[3]));
  }

  lemma TwoEntries(a: Entry, b: Entry)
    ensures EntriesText([a, b]) == EntryText(a) + EntryText(b)
  {
    hide EntriesText, EntryText;
    var m := [a, b];
    EntriesStep(m, 1);
    EntriesStep(m, 0);
    NoEntries(m);
    assert m[..2] == m && "" + EntryText(a) == EntryText(a);
  }

  lemma Grouped(a: string, b: string, c: string)
    ensures a + (b + c) == a + b + c
  {
  }

  lemma PageText(page: Option<string>)
    ensures EntryText(Entry("BODY", page)) == CRLF + if page.None? then "" else page.value
  {
  }

  // For every request text that gets a text/plain response, the bytes after the first blank
  // line of that response number exactly what Content-length says (RFC 7230, section 3.3.2).
  lemma PostContentLength(w: World, text: string)
    requires IsPlainText(Respond(w, text))
    ensures ParamsOf(RequestBody(text)).Some? && LengthIsRight(w, PLAIN_TYPE, Protocol(Respond(w, text)))
    ensures BodyOf(Protocol(Respond(w, text))) == EchoOf(w, RequestBody(text))
  {
    hide Find, Join, Protocol, Plain, Respond, RequestBody, RequestWords, HeaderLines, EchoOf, FieldsAreWellFormed, Words;
    ResponseIsExplained(w, text);
    var echo := EchoOf(w, RequestBody(text));
    PlainIs(w, echo);
    VersionIsWord(w, text);
    OkSplits(w, PLAIN_TYPE, w.ByteLength(echo), echo);
  }

  lemma {:induction false} WordsHaveNoDelimiters(s: string)
    ensures forall i, c :: 0 <= i < |Words(s)| && c in Words(s)[i] ==> !IsDelimiter(c)
    decreases |s|
  {
    if s != "" {
      if IsDelimiter(s[0]) {
        WordsHaveNoDelimiters(s[1..]);
      } else {
        WordEndDelimits(s);
        WordsHaveNoDelimiters(s[WordEnd(s)..]);
      }
    }
  }

  lemma {:induction false} WordEndDelimits(s: string)
    ensures forall c :: c in s[..WordEnd(s)] ==> !IsDelimiter(c)
    decreases |s|
  {
    if s != "" && !IsDelimiter(s[0]) {
      WordEndDelimits(s[1..]);
      assert s[..WordEnd(s)] == [s[0]] + s[1..][..WordEnd(s[1..])];
    }
  }

  // A request that asks for a file names the server's version as one of its words.
  lemma VersionIsWord(w: World, text: string)
    requires AsksFor(w, RequestWords(text))
    ensures '\r' !in w.version && '\r' !in PLAIN_TYPE && '\r' !in HTML_TYPE
  {
    hide HeaderLines, Words;
    var lines := HeaderLines(text);
    WordsHaveNoDelimiters(if lines == [] then "" else lines[0]);
    assert w.version == RequestWords(text)[2] && IsDelimiter('\r');
  }

  // What stands behind the first blank line.
  function BodyOf(response: string): string {
    var end := Find(response, BLANK);
    if end.None? then "" else response[end.value + 4..]
  }

  // The head announces exactly as many bytes as the body takes in the platform's encoding.
  ghost predicate LengthIsRight(w: World, contentType: string, response: string) {
    var end := Find(response, BLANK);
    end.Some? && response[..end.value] == Join(OkHead(w, contentType, w.ByteLength(BodyOf(response))), CRLF)
  }

  lemma DecimalIsInjective(a: nat, b: nat)
    ensures Decimal(a) == Decimal(b) <==> a == b
  {
    hide Decimal, NumeralValue;
    NumeralOfDecimal(a);
    NumeralOfDecimal(b);
  }

  lemma HeadIsInjective(w: World, contentType: string, a: nat, b: nat)
    ensures Join(OkHead(w, contentType, a), CRLF) == Join(OkHead(w, contentType, b), CRLF) <==> a == b
  {
    hide Join, Decimal;
    DecimalIsInjective(a, b);
    HeadEndsInNumber(w, contentType, a);
    HeadEndsInNumber(w, contentType, b);
  }

  lemma HeadEndsInNumber(w: World, contentType: string, n: nat)
    ensures var front := w.version + " " + "200 OK" + CRLF + ("Content-Type" + ": " + contentType + CRLF + "Content-length: ");
      && Join(OkHead(w, contentType, n), CRLF) == front + Decimal(n)
      && Join(OkHead(w, contentType, n), CRLF)[|front|..] == Decimal(n)
  {
    hide Join, Decimal;
    var head := OkHead(w, contentType, n);
    JoinThree(head[0], head[1], head[2]);
    assert "Content-length" + ": " == "Content-length: ";
    assert head[1] + CRLF + ("Content-length: " + Decimal(n)) == (head[1] + CRLF + "Content-length: ") + Decimal(n);
  }

  // A page is sent as the text read from its bytes, and announced by their number.
  lemma PageResponse(w: World, text: string)
    requires FieldsAreWellFormed(HeaderLines(text)) && GoodGet(w, RequestWords(text))
    ensures var bytes, response := FileOf(w, RequestWords(text)).bytes, Protocol(Respond(w, text));
      && BodyOf(response) == w.Text(bytes)
      && (LengthIsRight(w, HTML_TYPE, response) <==> |bytes| == w.ByteLength(w.Text(bytes)))
  {
    hide Find, Join, Protocol, Html, Respond, RequestBody, RequestWords, HeaderLines, FieldsAreWellFormed, Decimal, Words;
    ResponseIsExplained(w, text);
    var bytes := FileOf(w, RequestWords(text)).bytes;
    HtmlIs(w, bytes);
    VersionIsWord(w, text);
    OkSplits(w, HTML_TYPE, |bytes|, w.Text(bytes));
    HeadIsInjective(w, HTML_TYPE, |bytes|, w.ByteLength(w.Text(bytes)));
  }

  // No character takes more bytes on the platform than in UTF-8.
  ghost predicate IsNarrow(w: World) {
    forall c :: w.width(c) <= Utf8.Width(c)
  }

  lemma {:induction false} BytesCompare(w: World, page: string)
    requires IsNarrow(w)
    ensures w.ByteLength(page) <= |Utf8.Encode(page)|
    ensures w.ByteLength(page) == |Utf8.Encode(page)| <==>
      forall i :: 0 <= i < |page| ==> w.width(page[i]) == Utf8.Width(page[i])
    decreases |page|
  {
    hide Utf8.Width, Utf8.EncodeChar;
    if page != "" {
      var n := |page| - 1;
      BytesCompare(w, page[..n]);
      Utf8.EncodeLast(page);
      assert w.width(page[n]) <= Utf8.Width(page[n]);
    }
  }

  // Of a page that is the UTF-8 form of a text, the announced length is right exactly when
  // each character takes as many bytes on the platform as in the file.
  lemma PageContentLengthIff(w: World, text: string, page: string)
    requires FieldsAreWellFormed(HeaderLines(text)) && GoodGet(w, RequestWords(text))
    requires FileOf(w, RequestWords(text)).bytes == Utf8.Encode(page) && IsNarrow(w)
    ensures BodyOf(Protocol(Respond(w, text))) == page
    ensures LengthIsRight(w, HTML_TYPE, Protocol(Respond(w, text))) <==>
      forall i :: 0 <= i < |page| ==> w.width(page[i]) == Utf8.Width(page[i])
  {
    hide Find, Join, Protocol, Respond, RequestWords, HeaderLines, FieldsAreWellFormed, LengthIsRight, BodyOf, GoodGet;
    PageResponse(w, text);
    Utf8.DecodeUndoesEncode(page);
    BytesCompare(w, page);
  }

  // So it is always right where the platform uses UTF-8 itself,
  lemma PageLengthOnUtf8(w: World, text: string, page: string)
    requires FieldsAreWellFormed(HeaderLines(text)) && GoodGet(w, RequestWords(text))
    requires FileOf(w, RequestWords(text)).bytes == Utf8.Encode(page)
    requires forall c :: w.width(c) == Utf8.Width(c)
    ensures LengthIsRight(w, HTML_TYPE, Protocol(Respond(w, text)))
  {
    hide *;
    SameWidths(w);
    PageContentLengthIff(w, text, page);
  }

  lemma SameWidths(w: World)
    requires forall c :: w.width(c) == Utf8.Width(c)
    ensures IsNarrow(w)
  {
  }

  // and where every character takes one byte, exactly for pages of characters below 0x80.
  lemma PageLengthOnOneByte(w: World, text: string, page: string)
    requires FieldsAreWellFormed(HeaderLines(text)) && GoodGet(w, RequestWords(text))
    requires FileOf(w, RequestWords(text)).bytes == Utf8.Encode(page)
    requires forall c :: w.width(c) == 1
    ensures LengthIsRight(w, HTML_TYPE, Protocol(Respond(w, text))) <==> forall i :: 0 <= i < |page| ==> page[i] as int < 0x80
  {
    hide *;
    OneByteWidths(w);
    PageContentLengthIff(w, text, page);
  }

  lemma OneByteWidths(w: World)
    requires forall c :: w.width(c) == 1
    ensures IsNarrow(w) && forall c :: w.width(c) == Utf8.Width(c) <==> c as int < 0x80
  {
  }

  // ---- A request for a page ----

  predicate IsWord(s: string) {
    s != "" && forall i :: 0 <= i < |s| ==> !IsDelimiter(s[i])
  }

  lemma {:induction false} WordEndOfWord(word: string, rest: string)
    requires (forall i :: 0 <= i < |word| ==> !IsDelimiter(word[i])) && (rest != "" ==> IsDelimiter(rest[0]))
    ensures WordEnd(word + rest) == |word|
    decreases |word|
  {
    if word == "" {
      assert word + rest == rest;
    } else {
      assert (word + rest)[1..] == word[1..] + rest;
      WordEndOfWord(word[1..], rest);
    }
  }

  lemma WordsOfTwo(word: string, rest: string)
    requires IsWord(word)
    ensures Words(word + " " + rest) == [word] + Words(rest)
  {
    var s := word + " " + rest;
    assert s == word + (" " + rest);
    WordEndOfWord(word, " " + rest);
    assert s[..|word|] == word && s[|word|..] == " " + rest && (" " + rest)[1..] == rest;
  }

  lemma WordsOfOne(word: string)
    requires IsWord(word)
    ensures Words(word) == [word]
  {
    assert word + "" == word;
    WordEndOfWord(word, "");
    assert word[..|word|] == word && word[|word|..] == "";
  }

  // A request of one line.
  lemma LineIsRead(path: string, version: string)
    requires IsWord(path) && IsWord(version)
    ensures var text := Message(["GET" + " " + (path + " " + version)], "");
      FieldsAreWellFormed(HeaderLines(text)) && RequestWords(text) == ["GET", path, version]
  {
    hide JavaSplit, FrameOf, Words, HeaderText, Message;
    var status := "GET" + " " + (path + " " + version);
    assert '\n' !in status by {
      assert IsDelimiter('\n');
    }
    WithoutCharacter(status, CRLF);
    WithoutCharacter("", CRLF);
    FramingRoundTrip([status], "");
    HeaderSplitsAgain([status]);
    WordsOfTwo("GET", path + " " + version);
    WordsOfTwo(path, version);
    WordsOfOne(version);
  }

  // The page e with an acute accent, two bytes in UTF-8, on a platform of one byte for each
  // character: two bytes are announced and one is sent.
  lemma PageExample() returns (w: World, text: string)
    ensures text == Message(["GET" + " " + ("p" + " " + "HTTP/1.1")], "")
    ensures BodyOf(Protocol(Respond(w, text))) == "\U{00E9}" && !LengthIsRight(w, HTML_TYPE, Protocol(Respond(w, text)))
  {
    hide Protocol, Respond, Message, LengthIsRight, BodyOf, UpToQuestion, HeaderLines, RequestWords, FieldsAreWellFormed, IsDelimiter;
    var page := "\U{00E9}";
    w := World("HTTP/1.1", map[], _ => Found(Utf8.Encode("\U{00E9}")), _ => [], _ => 1, _ => "");
    text := Message(["GET" + " " + ("p" + " " + "HTTP/1.1")], "");
    ExampleWords();
    LineIsRead("p", "HTTP/1.1");
    PageResponse(w, text);
    Utf8.DecodeUndoesEncode(page);
    PageLengthOnOneByte(w, text, page);
    assert page[0] as int >= 0x80;
  }

  lemma ExampleWords()
    ensures IsWord("p") && IsWord("HTTP/1.1") && '?' !in "p"
  {
  }

  // ---- What is echoed ----

  function EchoLines(m: map<string, string>, keys: seq<string>): (r: seq<string>)
    requires forall k :: k in keys ==> k in m
    ensures |r| == |keys| && forall i :: 0 <= i < |keys| ==> r[i] == keys[i] + " -> " + m[keys[i]]
  {
    seq(|keys|, i requires 0 <= i < |keys| => keys[i] + " -> " + m[keys[i]])
  }

  lemma {:induction false} EchoIsLines(m: map<string, string>, keys: seq<string>)
    requires forall k :: k in keys ==> k in m
    ensures Echo(m, keys) == HeaderText(EchoLines(m, keys))
    decreases |keys|
  {
    if keys != [] {
      var n := |keys| - 1;
      EchoIsLines(m, keys[..n]);
      assert EchoLines(m, keys)[..n] == EchoLines(m, keys[..n]);
    }
  }

  lemma FairListsOnce(w: World, m: map<string, string>)
    requires w.Fair()
    ensures var keys := w.order(m);
      && |keys| == |m|
      && (forall k :: k in keys <==> k in m)
      && (forall i, j :: 0 <= i < j < |keys| ==> keys[i] != keys[j])
  {
    var keys := w.order(m);
    assert |multiset(keys)| == |multiset(m.Keys)| == |m.Keys|;
    forall k
      ensures k in keys <==> k in m
    {
      assert k in multiset(keys) <==> k in multiset(m.Keys);
    }
    forall i, j | 0 <= i < j < |keys|
      ensures keys[i] != keys[j]
    {
      CountedTwice(keys, i, j);
    }
  }

  lemma CountedTwice(keys: seq<string>, i: nat, j: nat)
    requires i < j < |keys|
    ensures multiset(keys)[keys[i]] >= if keys[i] == keys[j] then 2 else 1
  {
    assert keys == keys[..j] + [keys[j]] + keys[j + 1..];
    assert keys[i] == keys[..j][i] && keys[i] in multiset(keys[..j]);
  }

  // One line for each parameter, and the keys in the order of the lines.
  ghost predicate ListsOnce(m: map<string, string>, keys: seq<string>, lines: seq<string>) {
    && |lines| == |keys| == |m|
    && (forall i :: 0 <= i < |keys| ==> keys[i] in m && lines[i] == keys[i] + " -> " + m[keys[i]])
    && (forall k :: k in m ==> k in keys)
    && (forall i, j :: 0 <= i < j < |keys| ==> keys[i] != keys[j])
  }

  lemma EchoLineIsLine(k: string, v: string)
    requires Without(k, CRLF) && Without(v, CRLF)
    ensures IsLine(k + " -> " + v)
  {
    var line := k + " -> " + v;
    hide IsAt;
    forall j: nat
      ensures !IsAt(line, j, CRLF)
    {
      BreakIs(line, j);
      BreakIs(k, j);
      if j >= |k| + 4 {
        BreakIs(v, j - |k| - 4);
      }
    }
  }

  // Reading the echo line by line gives every parameter exactly once, with its value.
  lemma EchoedOnce(w: World, m: map<string, string>)
    requires w.Fair() && m != map[]
    requires forall k :: k in m ==> Without(k, CRLF) && Without(m[k], CRLF)
    ensures ListsOnce(m, w.order(m), JavaSplit(Echo(m, w.order(m)), CRLF))
  {
    hide JavaSplit, HeaderText, Echo;
    var keys := w.order(m);
    FairListsOnce(w, m);
    EchoIsLines(m, keys);
    var lines := EchoLines(m, keys);
    forall i | 0 <= i < |lines|
      ensures IsLine(lines[i])
    {
      EchoLineIsLine(keys[i], m[keys[i]]);
    }
    HeaderSplitsAgain(lines);
  }

  lemma {:induction false} MapOfKeys(pairs: seq<Pair>, k: string)
    requires k in MapOf(pairs)
    ensures exists i :: 0 <= i < |pairs| && pairs[i].key == k && pairs[i].value == MapOf(pairs)[k]
  {
    if pairs[|pairs| - 1].key != k {
      MapOfKeys(pairs[..|pairs| - 1], k);
    }
  }

  ghost predicate LiesIn(part: string, s: string) {
    exists at: nat :: IsAt(s, at, part)
  }

  lemma AtInside(s: string, at: nat, part: string, j: nat, m: string)
    requires IsAt(s, at, part) && IsAt(part, j, m)
    ensures IsAt(s, at + j, m)
  {
    assert forall k :: at <= k < at + |part| ==> s[k] == part[k - at];
    assert s[at + j..at + j + |m|] == part[j..j + |m|];
  }

  lemma WithoutPart(s: string, part: string, m: string)
    requires LiesIn(part, s) && Without(s, m)
    ensures Without(part, m)
  {
    hide IsAt;
    var at: nat :| IsAt(s, at, part);
    forall j: nat
      ensures !IsAt(part, j, m)
    {
      if IsAt(part, j, m) {
        AtInside(s, at, part, j, m);
      }
    }
  }

  lemma LiesBetween(a: string, b: string, c: string)
    ensures LiesIn(b, a + b + c)
  {
    assert (a + b + c)[|a|..|a| + |b|] == b;
    assert IsAt(a + b + c, |a|, b);
  }

  lemma {:induction false} PartOfJoin(parts: seq<string>, sep: string, i: nat)
    requires i < |parts|
    ensures LiesIn(parts[i], Join(parts, sep))
  {
    if i > 0 {
      PartOfJoin(parts[1..], sep, i - 1);
      var rest := Join(parts[1..], sep);
      var at: nat :| IsAt(rest, at, parts[i]);
      var k := |parts[0]| + |sep| + at;
      assert Join(parts, sep) == parts[0] + sep + rest;
      assert Join(parts, sep)[k..k + |parts[i]|] == rest[at..at + |parts[i]|];
      assert IsAt(Join(parts, sep), k, parts[i]);
    } else {
      var rest := if |parts| == 1 then "" else sep + Join(parts[1..], sep);
      assert Join(parts, sep) == "" + parts[0] + rest;
      LiesBetween("", parts[0], rest);
    }
  }

  lemma PairIsLine(pairs: seq<Pair>, i: nat)
    requires i < |pairs| && Without(Query(pairs), CRLF)
    ensures Without(pairs[i].key, CRLF) && Without(pairs[i].value, CRLF)
  {
    hide Join, Without, LiesIn;
    var p := pairs[i];
    PartOfJoin(Spellings(pairs), "&", i);
    WithoutPart(Query(pairs), Spell(p), CRLF);
    LiesBetween("", p.key, "=" + p.value);
    assert "" + p.key + ("=" + p.value) == Spell(p);
    WithoutPart(Spell(p), p.key, CRLF);
    LiesBetween(p.key + "=", p.value, "");
    assert p.key + "=" + p.value + "" == Spell(p);
    WithoutPart(Spell(p), p.value, CRLF);
  }

  lemma ParametersAreLines(pairs: seq<Pair>)
    requires pairs != [] && Without(Query(pairs), CRLF)
    ensures MapOf(pairs) != map[]
    ensures forall k :: k in MapOf(pairs) ==> Without(k, CRLF) && Without(MapOf(pairs)[k], CRLF)
  {
    hide Query, Without;
    assert pairs[|pairs| - 1].key in MapOf(pairs);
    forall k | k in MapOf(pairs)
      ensures Without(k, CRLF) && Without(MapOf(pairs)[k], CRLF)
    {
      MapOfKeys(pairs, k);
      var i :| 0 <= i < |pairs| && pairs[i].key == k && pairs[i].value == MapOf(pairs)[k];
      PairIsLine(pairs, i);
    }
  }

  // A rendered POST request with a parameter list in its body, all the way through: it gets
  // the response that echoes the parameters, one line for each key, with its last value.
  lemma PostRequestIsEchoed(w: World, status: string, fields: seq<string>, pairs: seq<Pair>)
    requires AreLines([status] + fields)
    requires forall i :: 0 <= i < |fields| ==> |JavaSplit(fields[i], ": ")| == 2
    requires Acceptable(w, Words(status)) && Words(status)[0] == "POST"
    requires pairs != [] && forall i :: 0 <= i < |pairs| ==> IsPlain(pairs[i]) && pairs[i].value != ""
    requires Without(Query(pairs), CRLF)
    ensures Respond(w, Message([status] + fields, Query(pairs))) == Plain(w, Echo(MapOf(pairs), w.order(MapOf(pairs))))
    ensures w.Fair() ==>
      var m, keys := MapOf(pairs), w.order(MapOf(pairs));
      ListsOnce(m, keys, JavaSplit(Echo(m, keys), CRLF))
  {
    hide JavaSplit, FrameOf, Words, Protocol, PairsOf, UpToQuestion, Query, Message, Plain, Find, HeaderText, Echo, MapOf;
    var lines := [status] + fields;
    FramingRoundTrip(lines, Query(pairs));
    HeaderSplitsAgain(lines);
    QueryRoundTripIff(pairs);
    assert FieldsAreWellFormed(lines);
    ParametersAreLines(pairs);
    if w.Fair() {
      EchoedOnce(w, MapOf(pairs));
    }
  }

  // The last part of parseHTTPHeader, with the loop that writes out the parameters.
  method Decide(w: World, words: seq<string>, body: string) returns (responseMap: seq<Entry>)
    ensures responseMap == Answer(w, words, body) && Explained(w, words, body, responseMap)
  {
    hide JavaSplit, PairsOf, Plain, Html, Refused, Refusal, Echo, UpToQuestion, Explained;
    AnswerIsExplained(w, words, body);
    responseMap := Base(w);
    if |words| < 2 {
      return Refused(w, BadRequest);
    }
    if JavaLength(words[1]) > 100 {
      return Refused(w, UriTooLong);
    }
    if |words| < 3 {
      return Refused(w, BadRequest);
    }
    if words[2] != w.version {
      return Refused(w, VersionNotSupported);
    }
    match w.files(UpToQuestion(words[1])) {
      case Missing => return Refused(w, NotFound);
      case NotOpened(message) => return Refusal(w, message, "404");
      case Unreadable => return;
      case Found(bytes) =>
        if words[0] == "GET" {
          if '?' in words[1] {
            var param := ParamParser(words[1]);
            if param.None? {
              return Refused(w, BadRequest);
            }
          }
          return Html(w, bytes);
        } else if words[0] == "POST" {
          var param := ParamParser(body);
          if param.None? {
            return Refused(w, BadRequest);
          }
          var sb := WriteEcho(param.value, w.order(param.value));
          return Plain(w, sb);
        } else {
          return Refused(w, MethodNotAllowed);
        }
    }
  }

  method WriteEcho(m: map<string, string>, keys: seq<string>) returns (sb: string)
    ensures sb == Echo(m, keys)
  {
    sb := "";
    var i := 0;
    assert keys[..0] == [];
    while i < |keys|
      invariant 0 <= i <= |keys| && sb == Echo(m, keys[..i])
    {
      assert keys[..i + 1][..i] == keys[..i];
      sb := sb + keys[i] + " -> " + (if keys[i] in m then m[keys[i]] else "null");
      sb := sb + CRLF;
      i := i + 1;
    }
    assert keys[..|keys|] == keys;
  }

  // parseHTTPHeader from the decoded text on.
  method ParseHttpHeader(w: World, reqData: string) returns (response: string)
    ensures response == Protocol(Respond(w, reqData))
  {
    hide JavaSplit, FrameOf, Words, Protocol, Answer, Refused;
    var f := ReadFrame(reqData);
    var lines := JavaSplit(f.header, CRLF);
    var statusLine, ok, i := "", true, 0;
    while i < |lines| && ok
      invariant 0 <= i <= |lines|
      invariant statusLine == if i == 0 then "" else lines[0]
      invariant ok <==> forall k :: 1 <= k < i ==> |JavaSplit(lines[k], ": ")| == 2
    {
      if i == 0 {
        statusLine := lines[i];
      } else if |JavaSplit(lines[i], ": ")| != 2 {
        ok := false;
      }
      i := i + 1;
    }
    assert ok <==> FieldsAreWellFormed(lines);
    var responseMap := Refused(w, BadRequest);
    if ok {
      responseMap := Decide(w, Words(statusLine), f.body);
    }
    response := MakeProtocol(responseMap);
  }
}

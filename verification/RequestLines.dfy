// Rendered requests, from the text on the wire to the response: what stands in the request
// line decides which file is sent or which status line is.
module RequestLines {
  import opened Http
  import opened Numerals
  import opened Prelude
  import opened ReplaceText
  import Utf8

  // ---- The words of the request line ----

  const BLANKS := " \t\n\r\U{000C}"

  lemma BlanksDelimit(c: char)
    ensures c in BLANKS <==> IsDelimiter(c)
  {
    assert BLANKS == [' ', '\t', '\n', '\r', 12 as char];
  }

  // A word ends at any of the five blank characters, and blanks in front of it are skipped.
  lemma WordsAtBlanks(word: string, c: char, rest: string)
    requires c in BLANKS && forall i :: 0 <= i < |word| ==> word[i] !in BLANKS
    ensures Words(word + [c] + rest) == (if word == "" then [] else [word]) + Words(rest)
    ensures Words(word) == if word == "" then [] else [word]
  {
    BlanksDelimit(c);
    forall i | 0 <= i < |word|
      ensures !IsDelimiter(word[i])
    {
      BlanksDelimit(word[i]);
    }
    var tail := [c] + rest;
    assert word + [c] + rest == word + tail && tail[1..] == rest;
    if word == "" {
      assert word + tail == tail;
    } else {
      WordEndOfWord(word, tail);
      assert (word + tail)[..|word|] == word && (word + tail)[|word|..] == tail;
      WordsOfOne(word);
    }
  }

  // ---- The target ----

  lemma {:induction false} UpToQuestionIs(path: string, rest: string)
    requires '?' !in path && (rest != "" ==> rest[0] == '?')
    ensures UpToQuestion(path + rest) == path
  {
    if path == "" {
      assert path + rest == rest;
    } else {
      assert (path + rest)[1..] == path[1..] + rest;
      UpToQuestionIs(path[1..], rest);
    }
  }

  // String.length counts the characters from U+10000 on twice.
  lemma {:induction false} JavaLengthIs(a: string, c: char)
    ensures JavaLength(a + [c]) == JavaLength(a) + if c < '\U{10000}' then 1 else 2
    ensures (forall i :: 0 <= i < |a| ==> a[i] < '\U{10000}') ==> JavaLength(a) == |a|
  {
    if a == "" {
      assert a + [c] == [c] && [c][1..] == "";
    } else {
      assert (a + [c])[1..] == a[1..] + [c];
      JavaLengthIs(a[1..], c);
    }
  }

  function Target(path: string, query: Option<string>): string {
    if query.None? then path else path + "?" + query.value
  }

  lemma TargetNamesPath(path: string, query: Option<string>)
    requires '?' !in path
    ensures UpToQuestion(Target(path, query)) == path
    ensures '?' in Target(path, query) <==> query.Some?
  {
    if query.Some? {
      assert Target(path, query) == path + ("?" + query.value);
      UpToQuestionIs(path, "?" + query.value);
      assert Target(path, query)[|path|] == '?';
    } else {
      assert path + "" == path;
      UpToQuestionIs(path, "");
    }
  }

  // A rendered parameter list behind a path is accepted exactly when no value is empty.
  lemma TargetHasValuesIff(path: string, pairs: seq<Pair>)
    requires '=' !in path && '&' !in path && pairs != []
    requires forall i :: 0 <= i < |pairs| ==> IsPlain(pairs[i])
    ensures HasValues(Target(path, Some(Query(pairs)))) <==> forall i :: 0 <= i < |pairs| ==> pairs[i].value != ""
  {
    hide Join, JavaSplit, HasValues, PairsOf;
    var first := Pair(path + "?" + pairs[0].key, pairs[0].value);
    var all := [first] + pairs[1..];
    TargetIsQuery(path, pairs);
    assert all[0] == first && forall i :: 1 <= i < |all| ==> all[i] == pairs[i];
    QueryRoundTripIff(all);
    ParamsOfIff(Query(all));
  }

  lemma TargetIsQuery(path: string, pairs: seq<Pair>)
    requires pairs != []
    ensures Target(path, Some(Query(pairs))) == Query([Pair(path + "?" + pairs[0].key, pairs[0].value)] + pairs[1..])
  {
    var first := Pair(path + "?" + pairs[0].key, pairs[0].value);
    var all := [first] + pairs[1..];
    assert all[1..] == pairs[1..] && all[0] == first;
    assert Spellings(all)[1..] == Spellings(pairs)[1..];
    assert Spell(first) == path + "?" + Spell(pairs[0]);
    if |pairs| > 1 {
      var rest := Join(Spellings(pairs)[1..], "&");
      assert Query(all) == Spell(first) + "&" + rest;
      assert Query(pairs) == Spell(pairs[0]) + "&" + rest;
    }
  }

  // ---- From the text to the response ----

  function RequestLine(verb: string, target: string, version: string): string {
    verb + " " + target + " " + version
  }

  ghost predicate AreFields(fields: seq<string>) {
    forall i :: 0 <= i < |fields| ==> IsLine(fields[i])
  }

  lemma RequestLineIsLine(verb: string, target: string, version: string)
    requires IsWord(verb) && IsWord(target) && IsWord(version)
    ensures IsLine(RequestLine(verb, target, version))
    ensures Words(RequestLine(verb, target, version)) == [verb, target, version]
  {
    var line := RequestLine(verb, target, version);
    assert '\n' !in line by {
      assert IsDelimiter('\n');
    }
    WithoutCharacter(line, CRLF);
    assert line == verb + " " + (target + " " + version);
    WordsOfTwo(verb, target + " " + version);
    WordsOfTwo(target, version);
    WordsOfOne(version);
  }

  // Whatever the status line, the parser sees the lines and the body that were written.
  lemma MessageIsRead(status: string, fields: seq<string>, body: string)
    requires IsLine(status) && AreFields(fields) && Without(body, CRLF)
    ensures var text := Message([status] + fields, body);
      && HeaderLines(text) == [status] + fields && RequestWords(text) == Words(status)
      && RequestBody(text) == body
  {
    hide JavaSplit, FrameOf, Words, HeaderText, Message, IsLine;
    FramingRoundTrip([status] + fields, body);
    HeaderSplitsAgain([status] + fields);
  }

  // A field that does not split at ": " into two parts makes the request a bad one, whatever
  // it asks for.
  lemma BadFieldIsRefused(w: World, status: string, fields: seq<string>, body: string, i: nat)
    requires IsLine(status) && AreFields(fields) && Without(body, CRLF)
    requires i < |fields| && |JavaSplit(fields[i], ": ")| != 2
    ensures Respond(w, Message([status] + fields, body)) == Refused(w, BadRequest)
  {
    hide JavaSplit, HeaderLines, RequestWords, RequestBody, Message, IsLine, Refused, Answer, Without;
    MessageIsRead(status, fields, body);
    assert ([status] + fields)[i + 1] == fields[i];
  }

  // What a request for a path gets, the query cut off: first the length of the target and the
  // version are checked, then the file is looked up, then the method and the parameters.
  ghost predicate Gets(w: World, verb: string, path: string, query: Option<string>, version: string, body: string,
                       r: seq<Entry>) {
    var target := Target(path, query);
    if JavaLength(target) > 100 then r == Refused(w, UriTooLong)
    else if version != w.version then r == Refused(w, VersionNotSupported)
    else match w.files(path)
      case Missing => r == Refused(w, NotFound)
      case NotOpened(message) => r == Refusal(w, message, "404")
      case Unreadable => r == Base(w)
      case Found(bytes) =>
        if verb == "GET" then r == if query.None? || HasValues(target) then Html(w, bytes) else Refused(w, BadRequest)
        else if verb == "POST" then
          if HasValues(body) then ParamsOf(body).Some? && r == Plain(w, EchoOf(w, body)) else r == Refused(w, BadRequest)
        else r == Refused(w, MethodNotAllowed)
  }

  lemma RequestGets(w: World, verb: string, path: string, query: Option<string>, version: string,
                    fields: seq<string>, body: string)
    requires IsWord(verb) && IsWord(Target(path, query)) && IsWord(version) && '?' !in path
    requires AreFields(fields) && forall i :: 0 <= i < |fields| ==> |JavaSplit(fields[i], ": ")| == 2
    requires Without(body, CRLF)
    ensures Gets(w, verb, path, query, version, body,
              Respond(w, Message([RequestLine(verb, Target(path, query), version)] + fields, body)))
  {
    hide JavaSplit, HeaderLines, RequestWords, RequestBody, Message, IsLine, Refused, Refusal, Html, Plain, Base, EchoOf,
      Words, UpToQuestion, JavaLength, HasValues, ParamsOf, Without, IsWord, RequestLine, Target;
    var target := Target(path, query);
    var line := RequestLine(verb, target, version);
    RequestLineIsLine(verb, target, version);
    MessageIsRead(line, fields, body);
    TargetNamesPath(path, query);
    ParamsOfIff(target);
    ParamsOfIff(body);
    assert FieldsAreWellFormed([line] + fields);
  }

  // The status 404 says that the path, without its query, is missing; the message about a
  // file that cannot be opened may be the same text.
  lemma MissingIffNotFound(w: World, verb: string, path: string, query: Option<string>, version: string, body: string,
                           r: seq<Entry>)
    requires Gets(w, verb, path, query, version, body, r)
    requires JavaLength(Target(path, query)) <= 100 && version == w.version
    ensures HasStatus(r, "404 Not Found") <==> w.files(path) in {Missing, NotOpened("404 Not Found")}
  {
    hide Refused, Refusal, Html, Plain, Base, EchoOf, HasValues, ParamsOf, JavaLength, HasStatus;
    assert StatusLine(NotFound) == "404 Not Found";
    forall f: Fault
      ensures HasStatus(Refused(w, f), "404 Not Found") <==> f == NotFound
    {
      FaultShows(w, f);
    }
    StatusLinesDiffer(NotFound, NotFound);
    var echo := if ParamsOf(body).Some? then EchoOf(w, body) else "";
    match w.files(path)
    case Found(bytes) => OthersShow(w, echo, bytes);
    case NotOpened(message) => RefusalShows(w, message, "404");
    case _ => OthersShow(w, echo, []);
  }

  // ---- The response on the wire ----

  // A page, byte for byte of its head.
  lemma PageIsSent(w: World, path: string, query: Option<string>, fields: seq<string>, body: string, page: seq<Utf8.Byte>)
    requires IsWord(Target(path, query)) && IsWord(w.version) && '?' !in path && JavaLength(Target(path, query)) <= 100
    requires AreFields(fields) && forall i :: 0 <= i < |fields| ==> |JavaSplit(fields[i], ": ")| == 2
    requires Without(body, CRLF) && w.files(path) == Found(page) && (query.Some? ==> HasValues(Target(path, query)))
    ensures Protocol(Respond(w, Message([RequestLine("GET", Target(path, query), w.version)] + fields, body))) ==
      w.version + " 200 OK\r\n" + "Content-Type: text/html; charset=UTF-8\r\n"
      + "Content-length: " + Decimal(|page|) + "\r\n\r\n" + w.Text(page)
  {
    hide JavaSplit, Message, IsLine, Html, Without, IsWord, RequestLine, Target, Protocol, Respond, Decimal, HasValues,
      JavaLength;
    VerbsAreWords();
    RequestGets(w, "GET", path, query, w.version, fields, body);
    HtmlIsSent(w, page);
  }

  lemma HtmlIsSent(w: World, page: seq<Utf8.Byte>)
    ensures Protocol(Html(w, page)) ==
      w.version + " 200 OK\r\n" + "Content-Type: text/html; charset=UTF-8\r\n"
      + "Content-length: " + Decimal(|page|) + "\r\n\r\n" + w.Text(page)
  {
    hide *;
    HtmlIs(w, page);
    HtmlOnTheWire(w, |page|, w.Text(page));
  }

  lemma HtmlOnTheWire(w: World, length: nat, text: string)
    ensures Protocol(OkMap(w, HTML_TYPE, length, text)) ==
      w.version + " 200 OK\r\n" + "Content-Type: text/html; charset=UTF-8\r\n"
      + "Content-length: " + Decimal(length) + "\r\n\r\n" + text
  {
    hide *;
    OkOnTheWire(w, HTML_TYPE, length, text);
    HtmlField();
  }

  lemma VerbsAreWords()
    ensures IsWord("GET") && IsWord("POST")
  {
  }

  lemma OkOnTheWire(w: World, contentType: string, length: nat, body: string)
    ensures Protocol(OkMap(w, contentType, length, body)) ==
      w.version + " 200 OK\r\n" + ("Content-Type: " + contentType + "\r\n")
      + "Content-length: " + Decimal(length) + "\r\n\r\n" + body
  {
    hide Protocol, Join, Decimal;
    OkText(w, contentType, length, body);
    var head := OkHead(w, contentType, length);
    JoinThree(head[0], head[1], head[2]);
    assert head[0] + CRLF == w.version + " 200 OK\r\n";
    assert head[1] + CRLF == "Content-Type: " + contentType + "\r\n";
    assert head[2] + BLANK == "Content-length: " + Decimal(length) + "\r\n\r\n";
    Regrouped(head[0] + CRLF, head[1] + CRLF, head[2], body);
  }

  lemma Regrouped(a: string, b: string, c: string, d: string)
    ensures a + (b + c) + BLANK + d == a + b + (c + BLANK) + d
  {
  }

  // A POST request for a file that exists: the parameters, one line each.
  lemma EchoIsSent(w: World, path: string, query: Option<string>, fields: seq<string>, body: string)
    requires IsWord(Target(path, query)) && IsWord(w.version) && '?' !in path && JavaLength(Target(path, query)) <= 100
    requires AreFields(fields) && forall i :: 0 <= i < |fields| ==> |JavaSplit(fields[i], ": ")| == 2
    requires Without(body, CRLF) && w.files(path).Found? && HasValues(body)
    ensures ParamsOf(body).Some?
    ensures var echo := EchoOf(w, body);
      Protocol(Respond(w, Message([RequestLine("POST", Target(path, query), w.version)] + fields, body))) ==
        w.version + " 200 OK\r\n" + "Content-Type: text/plain; charset=UTF-8\r\n"
        + "Content-length: " + Decimal(w.ByteLength(echo)) + "\r\n\r\n" + echo
  {
    hide JavaSplit, Message, IsLine, Plain, Without, IsWord, RequestLine, Target, Protocol, Respond, Decimal, HasValues,
      JavaLength, OkMap, ParamsOf, EchoOf;
    VerbsAreWords();
    RequestGets(w, "POST", path, query, w.version, fields, body);
    PlainIsSent(w, EchoOf(w, body));
  }

  lemma PlainIsSent(w: World, echo: string)
    ensures Protocol(Plain(w, echo)) ==
      w.version + " 200 OK\r\n" + "Content-Type: text/plain; charset=UTF-8\r\n"
      + "Content-length: " + Decimal(w.ByteLength(echo)) + "\r\n\r\n" + echo
  {
    hide *;
    PlainIs(w, echo);
    OkOnTheWire(w, PLAIN_TYPE, w.ByteLength(echo), echo);
    PlainField();
  }

  lemma PlainField()
    ensures "Content-Type: " + PLAIN_TYPE + "\r\n" == "Content-Type: text/plain; charset=UTF-8\r\n"
  {
  }

  lemma HtmlField()
    ensures "Content-Type: " + HTML_TYPE + "\r\n" == "Content-Type: text/html; charset=UTF-8\r\n"
    ensures "Content-Type" + ": " + HTML_TYPE + CRLF == "Content-Type: text/html; charset=UTF-8\r\n"
  {
    assert "Content-Type" + ": " == "Content-Type: ";
  }

  // A refusal: its status line, one field, and the page the configuration has for its code.
  ghost predicate IsRefusal(w: World, text: string, status: string, code: string) {
    text == w.version + " " + status + "\r\n" + "Content-Type: text/html; charset=UTF-8\r\n"
            + "\r\n" + if code in w.pages then w.pages[code] else ""
  }

  lemma RefusalIsSent(w: World, status: string, code: string)
    ensures IsRefusal(w, Protocol(Refusal(w, status, code)), status, code)
  {
    hide Protocol, Refusal;
    RefusalText(w, status, code);
    HtmlField();
    var page := if code in w.pages then w.pages[code] else "";
    Grouped(w.version + " " + status + "\r\n" + "Content-Type: text/html; charset=UTF-8\r\n", "\r\n", page);
  }

  lemma FaultsAreSent(w: World)
    ensures IsRefusal(w, Protocol(Refused(w, BadRequest)), "400 Bad Request", "400")
    ensures IsRefusal(w, Protocol(Refused(w, NotFound)), "404 Not Found", "404")
    ensures IsRefusal(w, Protocol(Refused(w, MethodNotAllowed)), "405 Method Not Allowed", "405")
    ensures IsRefusal(w, Protocol(Refused(w, UriTooLong)), "414 Request-URI Too Long", "414")
    ensures IsRefusal(w, Protocol(Refused(w, VersionNotSupported)), "505 HTTP Version Not Supported", "505")
  {
    hide IsRefusal, Protocol, Refusal;
    RefusalIsSent(w, "400 Bad Request", "400");
    RefusalIsSent(w, "404 Not Found", "404");
    RefusalIsSent(w, "405 Method Not Allowed", "405");
    RefusalIsSent(w, "414 Request-URI Too Long", "414");
    RefusalIsSent(w, "505 HTTP Version Not Supported", "505");
  }

  // ---- Blank lines ----

  // A blank line at the very front is no separator.
  lemma LeadingBlankLine(lines: seq<string>)
    requires AreLines(lines)
    ensures var split := JavaSplit(Join([""] + lines, CRLF), CRLF);
      FrameOf(split, |split|) == Frame(HeaderText(lines), "", 0)
  {
    hide JavaSplit, FrameOf, HeaderText;
    var all := [""] + lines;
    WithoutCharacter("", CRLF);
    assert IsLine(lines[|lines| - 1]) && all[|all| - 1] == lines[|lines| - 1];
    forall i | 0 <= i < |all|
      ensures Without(all[i], CRLF)
    {
      assert i > 0 ==> IsLine(lines[i - 1]);
    }
    JavaSplitOfJoin(all, CRLF);
    FrameBehindBlank(lines, |lines|);
    assert lines[..|lines|] == lines;
  }

  lemma {:induction false} FrameBehindBlank(lines: seq<string>, n: nat)
    requires AreLines(lines) && n <= |lines|
    ensures FrameOf([""] + lines, n + 1) == Frame(HeaderText(lines[..n]), "", 0)
  {
    var all := [""] + lines;
    if n > 0 {
      FrameBehindBlank(lines, n - 1);
      assert lines[..n][..n - 1] == lines[..n - 1] && all[n] == lines[n - 1];
      assert IsLine(lines[n - 1]);
    } else {
      assert all[0] == "";
    }
  }


  // Each paragraph behind a blank line of its own; one without lines is a further blank line.
  function ParagraphLines(paragraphs: seq<seq<string>>): seq<string> {
    if paragraphs == [] then []
    else ParagraphLines(paragraphs[..|paragraphs| - 1]) + [""] + paragraphs[|paragraphs| - 1]
  }

  // Of each paragraph only the first line comes through, as often as it has lines.
  function GatheredBody(paragraphs: seq<seq<string>>): string {
    if paragraphs == [] then ""
    else
      var last := paragraphs[|paragraphs| - 1];
      GatheredBody(paragraphs[..|paragraphs| - 1]) + if last == [] then "" else Repeated(last[0], |last|)
  }

  lemma {:induction false} FrameOfParagraph(all: seq<string>, blank: nat, lines: seq<string>, k: nat)
    requires k <= |lines| && 0 < blank && blank + 1 + |lines| <= |all| && all[blank] == ""
    requires forall i :: 0 <= i < |lines| ==> all[blank + 1 + i] == lines[i] != ""
    ensures var f := FrameOf(all, blank);
      FrameOf(all, blank + 1 + k) ==
        Frame(f.header, f.body + if k == 0 then "" else Repeated(lines[0], k), blank)
  {
    hide Repeated;
    var f := FrameOf(all, blank);
    if k == 0 {
      assert f.body + "" == f.body;
    } else {
      FrameOfParagraph(all, blank, lines, k - 1);
      OneMore(lines[0], k - 1, f.body);
      assert all[blank + 1 + 0] == lines[0] && all[blank + 1 + (k - 1)] == lines[k - 1];
    }
  }

  lemma OneMore(s: string, k: nat, before: string)
    ensures before + (if k == 0 then "" else Repeated(s, k)) + s == before + Repeated(s, k + 1)
  {
    assert Repeated(s, 1) == "" + s == s;
  }

  lemma {:induction false} FrameOfParagraphs(lines: seq<string>, paragraphs: seq<seq<string>>, rest: seq<string>)
    requires AreLines(lines) && forall p, i :: 0 <= p < |paragraphs| && 0 <= i < |paragraphs[p]| ==> paragraphs[p][i] != ""
    ensures var all := lines + ParagraphLines(paragraphs);
      var f := FrameOf(all + rest, |all|);
      f.header == HeaderText(lines) && f.body == GatheredBody(paragraphs)
    decreases |paragraphs|
  {
    hide HeaderText, Repeated, FrameOf;
    var n := |paragraphs|;
    if n == 0 {
      FrameOfHeader(lines, lines + [] + rest, |lines|);
      assert lines[..|lines|] == lines && lines + [] == lines;
    } else {
      var front, last := paragraphs[..n - 1], paragraphs[n - 1];
      var before := lines + ParagraphLines(front);
      FrameOfParagraphs(lines, front, [""] + last + rest);
      var all := lines + ParagraphLines(paragraphs);
      assert all + rest == before + ([""] + last + rest);
      FrameOfParagraph(all + rest, |before|, last, |last|);
    }
  }

  // Whatever blank lines a body holds, the header lines are found, and of every paragraph the
  // first line repeated.
  lemma ParagraphsAreGathered(lines: seq<string>, paragraphs: seq<seq<string>>)
    requires AreLines(lines) && paragraphs != [] && paragraphs[|paragraphs| - 1] != []
    requires forall p, i :: 0 <= p < |paragraphs| && 0 <= i < |paragraphs[p]| ==> IsLine(paragraphs[p][i])
    ensures var split := JavaSplit(Join(lines + ParagraphLines(paragraphs), CRLF), CRLF);
      var f := FrameOf(split, |split|);
      f.header == HeaderText(lines) && f.body == GatheredBody(paragraphs)
  {
    hide JavaSplit, FrameOf, HeaderText, GatheredBody, Join;
    var all := lines + ParagraphLines(paragraphs);
    ParagraphLinesAreClean(paragraphs);
    forall i | 0 <= i < |all|
      ensures Without(all[i], CRLF)
    {
      assert i < |lines| ==> IsLine(lines[i]);
    }
    var n := |paragraphs|;
    assert all[|all| - 1] == paragraphs[n - 1][|paragraphs[n - 1]| - 1];
    assert IsLine(all[|all| - 1]);
    JavaSplitOfJoin(all, CRLF);
    FrameOfParagraphs(lines, paragraphs, []);
    assert all + [] == all;
  }

  lemma {:induction false} ParagraphLinesAreClean(paragraphs: seq<seq<string>>)
    requires forall p, i :: 0 <= p < |paragraphs| && 0 <= i < |paragraphs[p]| ==> IsLine(paragraphs[p][i])
    ensures forall i :: 0 <= i < |ParagraphLines(paragraphs)| ==> Without(ParagraphLines(paragraphs)[i], CRLF)
  {
    if paragraphs != [] {
      ParagraphLinesAreClean(paragraphs[..|paragraphs| - 1]);
      WithoutCharacter("", CRLF);
    }
  }
}

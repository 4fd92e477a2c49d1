// Property expansion of DaemonConfiguration.java: ${x} is replaced by the value of x,
// $${x} stands for the text ${x}, and an unknown ${x} is kept.
module Expansion {
  import opened Numerals
  import opened Prelude

  // System properties first, then the process environment.
  datatype Lookup = Lookup(properties: map<string, string>, environment: map<string, string>) {
    function Get(name: string): Option<string> {
      if name in properties then Some(properties[name])
      else if name in environment then Some(environment[name])
      else None
    }
  }

  predicate OpensAt(s: string, i: nat) {
    i + 1 < |s| && s[i] == '$' && s[i + 1] == '{'
  }

  // ---- What a property value means, token by token ----

  datatype Token =
    | Literal(c: char)       // any other character
    | Escaped                // $${
    | Variable(name: string) // ${name}
    | Unclosed(rest: string) // a "${" that no "}" follows

  function IndexOf(s: string, c: char): (r: Option<nat>)
    ensures r.Some? ==> r.value < |s| && s[r.value] == c && c !in s[..r.value]
    ensures r.None? ==> c !in s
  {
    if s == "" then None
    else if s[0] == c then Some(0)
    else
      var r := IndexOf(s[1..], c);
      if r.None? then None else Some(r.value + 1)
  }

  function Tokens(s: string): seq<Token>
    decreases |s|
  {
    if s == "" then []
    else if |s| >= 3 && s[0] == '$' && OpensAt(s, 1) then [Escaped] + Tokens(s[3..])
    else if OpensAt(s, 0) then
      var close := IndexOf(s[2..], '}');
      if close.None? then [Unclosed(s)]
      else [Variable(s[2..][..close.value])] + Tokens(s[2..][close.value + 1..])
    else [Literal(s[0])] + Tokens(s[1..])
  }

  function Spelling(t: Token): string {
    match t
    case Literal(c) => [c]
    case Escaped => "$${"
    case Variable(name) => "${" + name + "}"
    case Unclosed(rest) => rest
  }

  function Spell(ts: seq<Token>): string {
    if ts == [] then "" else Spelling(ts[0]) + Spell(ts[1..])
  }

  lemma SpellCons(t: Token, ts: seq<Token>)
    ensures Spell([t] + ts) == Spelling(t) + Spell(ts)
  {
    assert ([t] + ts)[1..] == ts;
  }

  lemma Reassemble(s: string, close: nat)
    requires OpensAt(s, 0) && close < |s[2..]| && s[2..][close] == '}'
    ensures Spelling(Variable(s[2..][..close])) + s[2..][close + 1..] == s
  {
  }

  lemma SpellVariable(s: string, close: nat)
    requires OpensAt(s, 0) && IndexOf(s[2..], '}') == Some(close)
    requires Spell(Tokens(s[2..][close + 1..])) == s[2..][close + 1..]
    ensures Spell(Tokens(s)) == s
  {
    var name, rest := s[2..][..close], s[2..][close + 1..];
    assert Tokens(s) == [Variable(name)] + Tokens(rest);
    SpellCons(Variable(name), Tokens(rest));
    Reassemble(s, close);
  }

  // The tokens of a text lose nothing of it.
  lemma {:induction false} TokensSpellTheText(s: string)
    ensures Spell(Tokens(s)) == s
    decreases |s|
  {
    if s == "" {
    } else if |s| >= 3 && s[0] == '$' && OpensAt(s, 1) {
      TokensSpellTheText(s[3..]);
      assert Tokens(s)[1..] == Tokens(s[3..]);
      assert s == "$${" + s[3..];
    } else if OpensAt(s, 0) {
      var close := IndexOf(s[2..], '}');
      if close.Some? {
        var rest := s[2..][close.value + 1..];
        TokensSpellTheText(rest);
        SpellVariable(s, close.value);
      } else {
        assert Spell(Tokens(s)[1..]) == "";
      }
    } else {
      TokensSpellTheText(s[1..]);
      assert Tokens(s)[1..] == Tokens(s[1..]);
    }
  }

  // The value of a token list; a failure carries the text from the unclosed "${" on.
  function Evaluate(ts: seq<Token>, env: Lookup): Result<string, string> {
    if ts == [] then Success("")
    else if ts[0].Unclosed? then Failure(ts[0].rest)
    else
      var text := match ts[0] {
        case Literal(c) => [c]
        case Escaped => "${"
        case Variable(name) => if env.Get(name).Some? then env.Get(name).value else Spelling(ts[0])
        case Unclosed(_) => ""
      };
      Prepend(text, Evaluate(ts[1..], env))
  }

  function Prepend(text: string, r: Result<string, string>): Result<string, string> {
    if r.Success? then Success(text + r.value) else r
  }

  function Meaning(s: string, env: Lookup): Result<string, string> {
    Evaluate(Tokens(s), env)
  }

  // ---- The loop of expandProperty against that meaning ----

  // indexOf("${", from)
  function NextOpen(s: string, from: nat): (r: Option<nat>)
    ensures r.Some? ==> from <= r.value && OpensAt(s, r.value)
    ensures r.Some? ==> forall i :: from <= i < r.value ==> !OpensAt(s, i)
    ensures r.None? ==> forall i: nat :: from <= i ==> !OpensAt(s, i)
    decreases if from < |s| then |s| - from else 0
  {
    if from >= |s| then None
    else if OpensAt(s, from) then Some(from)
    else NextOpen(s, from + 1)
  }

  lemma PrependTwice(a: string, b: string, r: Result<string, string>)
    ensures Prepend(a, Prepend(b, r)) == Prepend(a + b, r)
  {
    if r.Success? {
      assert a + (b + r.value) == a + b + r.value;
    }
  }

  // Text without a token in it means itself.
  lemma {:induction false} LiteralRun(s: string, from: nat, end: nat, env: Lookup)
    requires from <= end <= |s|
    requires forall i :: from <= i < end ==> !OpensAt(s, i) && !(s[i] == '$' && OpensAt(s, i + 1))
    ensures Meaning(s[from..], env) == Prepend(s[from..end], Meaning(s[end..], env))
    decreases end - from
  {
    if from < end {
      var t := s[from..];
      assert OpensAt(t, 0) == OpensAt(s, from) && (|t| >= 3 ==> OpensAt(t, 1) == OpensAt(s, from + 1));
      assert t[1..] == s[from + 1..];
      assert Tokens(t)[1..] == Tokens(s[from + 1..]);
      LiteralRun(s, from + 1, end, env);
      PrependTwice([s[from]], s[from + 1..end], Meaning(s[end..], env));
      assert [s[from]] + s[from + 1..end] == s[from..end];
    } else {
      var r := Meaning(s[end..], env);
      assert r.Success? ==> "" + r.value == r.value;
    }
  }

  lemma EscapedStep(s: string, at: nat, env: Lookup)
    requires at + 2 < |s| && s[at] == '$' && OpensAt(s, at + 1)
    ensures Meaning(s[at..], env) == Prepend("${", Meaning(s[at + 3..], env))
  {
    var t := s[at..];
    assert OpensAt(t, 1) && t[3..] == s[at + 3..];
    assert Tokens(t)[1..] == Tokens(s[at + 3..]);
  }

  lemma VariableFirst(t: string, close: nat, env: Lookup)
    requires OpensAt(t, 0) && IndexOf(t[2..], '}') == Some(close)
    ensures var v := env.Get(t[2..][..close]);
      Meaning(t, env) == Prepend(if v.Some? then v.value else "${" + t[2..][..close] + "}", Meaning(t[2..][close + 1..], env))
  {
    hide IndexOf;
    assert Tokens(t)[1..] == Tokens(t[2..][close + 1..]);
  }

  lemma FirstIndex(s: string, c: char, i: nat)
    requires i < |s| && s[i] == c && c !in s[..i]
    ensures IndexOf(s, c) == Some(i)
  {
    assert c in s;
  }

  lemma VariableStep(s: string, at: nat, close: nat, env: Lookup)
    requires OpensAt(s, at) && at + 2 <= close < |s| && s[close] == '}' && '}' !in s[at + 2..close]
    ensures var v := env.Get(s[at + 2..close]);
      Meaning(s[at..], env) == Prepend(if v.Some? then v.value else s[at..close + 1], Meaning(s[close + 1..], env))
  {
    hide Meaning, Prepend, IndexOf, Lookup.Get;
    var t, n := s[at..], close - at - 2;
    assert t[2..] == s[at + 2..];
    assert t[2..][..n] == s[at + 2..close];
    FirstIndex(t[2..], '}', n);
    VariableFirst(t, n, env);
    assert t[2..][n + 1..] == s[close + 1..];
    assert s[at..close + 1] == "${" + s[at + 2..close] + "}";
  }

  lemma UnclosedStep(s: string, at: nat, env: Lookup)
    requires OpensAt(s, at) && '}' !in s[at..]
    ensures Meaning(s[at..], env) == Failure(s[at..])
  {
    var t := s[at..];
    assert forall c :: c in t[2..] ==> c in t;
  }

  // ---- What the parts of a value stand for ----

  // The text put in front of what the rest means, unless the rest is malformed.
  ghost predicate Puts(text: string, rest: Result<string, string>, r: Result<string, string>) {
    if rest.Success? then r == Success(text + rest.value) else r == rest
  }

  // A name stands for the system property; without one, for the variable of the environment;
  // without either, for itself.
  lemma VariableMeans(name: string, rest: string, env: Lookup)
    requires '}' !in name
    ensures Puts(
      if name in env.properties then env.properties[name]
      else if name in env.environment then env.environment[name]
      else "${" + name + "}",
      Meaning(rest, env), Meaning("${" + name + "}" + rest, env))
  {
    hide Meaning;
    var s, close := "${" + name + "}" + rest, |name| + 2;
    assert s[0..] == s && s[2..close] == name && s[close + 1..] == rest && s[..close + 1] == "${" + name + "}";
    VariableStep(s, 0, close, env);
  }

  lemma EscapedMeans(rest: string, env: Lookup)
    ensures Puts("${", Meaning(rest, env), Meaning("$${" + rest, env))
  {
    hide Meaning;
    var s := "$${" + rest;
    assert s[0..] == s && s[3..] == rest;
    EscapedStep(s, 0, env);
  }

  lemma PlainMeans(text: string, rest: string, env: Lookup)
    requires '$' !in text
    ensures Puts(text, Meaning(rest, env), Meaning(text + rest, env))
  {
    hide Meaning;
    var s := text + rest;
    assert s[0..] == s && s[..|text|] == text && s[|text|..] == rest;
    assert forall i :: 0 <= i < |text| ==> s[i] == text[i] && text[i] in text;
    LiteralRun(s, 0, |text|, env);
  }

  lemma UnclosedMeans(rest: string, env: Lookup)
    requires '}' !in rest
    ensures Meaning("${" + rest, env) == Failure("${" + rest)
  {
    hide Meaning;
    var s := "${" + rest;
    assert s[0..] == s;
    UnclosedStep(s, 0, env);
  }

  // indexOf("}", from)
  function IndexFrom(s: string, c: char, from: nat): (r: Option<nat>)
    requires from <= |s|
    ensures r.Some? ==> from <= r.value < |s| && s[r.value] == c && c !in s[from..r.value]
    ensures r.None? ==> c !in s[from..]
    decreases |s| - from
  {
    if from == |s| then None
    else
      assert s[from..] == [s[from]] + s[from + 1..];
      if s[from] == c then Some(from)
      else
        var r := IndexFrom(s, c, from + 1);
        assert r.Some? ==> s[from..r.value] == [s[from]] + s[from + 1..r.value];
        r
  }

  // Everything before pos is accounted for: what has been written, and the text from
  // ctoken on that is still to be copied.
  ghost predicate Scanned(s: string, env: Lookup, expanded: string, ctoken: nat, pos: nat) {
    && ctoken <= pos <= |s|
    && (pos == 0 || s[pos - 1] != '$')
    && Meaning(s, env) == Prepend(expanded + s[ctoken..pos], Meaning(s[pos..], env))
  }

  lemma ScanEscaped(s: string, env: Lookup, expanded: string, ctoken: nat, pos: nat, b: nat)
    requires Scanned(s, env, expanded, ctoken, pos) && NextOpen(s, pos) == Some(b)
    requires b > 0 && s[b - 1] == '$'
    ensures ctoken <= b && Scanned(s, env, expanded + s[ctoken..b], b + 1, b + 2)
  {
    hide Meaning, NextOpen, Prepend;
    LiteralRun(s, pos, b - 1, env);
    EscapedStep(s, b - 1, env);
    var rest := Meaning(s[b + 2..], env);
    PrependTwice(s[pos..b - 1], "${", rest);
    PrependTwice(expanded + s[ctoken..pos], s[pos..b - 1] + "${", rest);
    assert expanded + s[ctoken..pos] + (s[pos..b - 1] + "${") == expanded + s[ctoken..b] + s[b + 1..b + 2];
  }

  lemma ScanVariable(s: string, env: Lookup, expanded: string, ctoken: nat, pos: nat, b: nat, e: nat)
    requires Scanned(s, env, expanded, ctoken, pos) && NextOpen(s, pos) == Some(b)
    requires b == 0 || s[b - 1] != '$'
    requires e < |s| && b <= e && s[e] == '}' && '}' !in s[b..e]
    ensures b + 2 <= e && ctoken <= b
    ensures var v := env.Get(s[b + 2..e]);
      if v.Some? then Scanned(s, env, expanded + s[ctoken..b] + v.value, e + 1, e + 1)
      else Scanned(s, env, expanded, ctoken, e + 1)
  {
    hide Meaning, NextOpen, Prepend, IndexFrom;
    assert forall c :: c in s[b + 2..e] ==> c in s[b..e];
    LiteralRun(s, pos, b, env);
    VariableStep(s, b, e, env);
    var v := env.Get(s[b + 2..e]);
    var text := if v.Some? then v.value else s[b..e + 1];
    var rest := Meaning(s[e + 1..], env);
    PrependTwice(s[pos..b], text, rest);
    PrependTwice(expanded + s[ctoken..pos], s[pos..b] + text, rest);
    if v.Some? {
      assert expanded + s[ctoken..pos] + (s[pos..b] + text) == expanded + s[ctoken..b] + text + s[e + 1..e + 1];
    } else {
      assert expanded + s[ctoken..pos] + (s[pos..b] + text) == expanded + s[ctoken..e + 1];
    }
  }

  lemma ScanUnclosed(s: string, env: Lookup, expanded: string, ctoken: nat, pos: nat, b: nat)
    requires Scanned(s, env, expanded, ctoken, pos) && NextOpen(s, pos) == Some(b)
    requires b == 0 || s[b - 1] != '$'
    requires '}' !in s[b..]
    ensures Meaning(s, env) == Failure(s[b..])
  {
    hide Meaning, NextOpen;
    LiteralRun(s, pos, b, env);
    UnclosedStep(s, b, env);
  }

  lemma EmptyMeans(s: string, env: Lookup)
    requires s == ""
    ensures Meaning(s, env) == Success("")
  {
  }

  lemma ScanEnd(s: string, env: Lookup, expanded: string, ctoken: nat, pos: nat)
    requires Scanned(s, env, expanded, ctoken, pos) && NextOpen(s, pos).None?
    ensures Meaning(s, env) == Success(expanded + s[ctoken..])
  {
    hide Meaning, NextOpen;
    EmptyMeans(s[|s|..], env);
    LiteralRun(s, pos, |s|, env);
    assert expanded + s[ctoken..pos] + (s[pos..|s|] + "") == expanded + s[ctoken..];
  }

  // expandProperty. The failure is the ParseException with the index of the "${".
  method ExpandProperty(propValue: Option<string>, env: Lookup) returns (r: Result<Option<string>, nat>)
    ensures propValue.None? ==> r == Success(None)
    ensures propValue.Some? && r.Success? ==>
      r.value.Some? && Meaning(propValue.value, env) == Success(r.value.value)
    ensures propValue.Some? && r.Failure? ==>
      r.error < |propValue.value| && Meaning(propValue.value, env) == Failure(propValue.value[r.error..])
  {
    hide Meaning, NextOpen, IndexFrom;
    if propValue.None? {
      return Success(None);
    }
    var s := propValue.value;
    var expanded, ctoken: nat := "", 0;
    var btoken := NextOpen(s, 0);
    ghost var pos: nat := 0;
    assert s[0..] == s && (forall v: string :: "" + v == v);
    while btoken.Some?
      invariant btoken == NextOpen(s, pos) && Scanned(s, env, expanded, ctoken, pos)
      decreases |s| - pos
    {
      var b := btoken.value;
      if b > 0 && s[b - 1] == '$' {
        ScanEscaped(s, env, expanded, ctoken, pos, b);
        expanded := expanded + s[ctoken..b];
        ctoken := b + 1;
        btoken := NextOpen(s, b + 2);
        pos := b + 2;
        continue;
      }
      var etoken := IndexFrom(s, '}', b);
      if etoken.Some? {
        var e := etoken.value;
        ScanVariable(s, env, expanded, ctoken, pos, b, e);
        var sysvalue := env.Get(s[b + 2..e]);
        if sysvalue.Some? {
          expanded := expanded + s[ctoken..b] + sysvalue.value;
          ctoken := e + 1;
        }
      } else {
        ScanUnclosed(s, env, expanded, ctoken, pos, b);
        return Failure(b);
      }
      btoken := NextOpen(s, etoken.value + 1);
      pos := etoken.value + 1;
    }
    ScanEnd(s, env, expanded, ctoken, pos);
    expanded := expanded + s[ctoken..];
    return Success(Some(expanded));
  }

  // ---- Escaping ----

  // One '$' put before every "${".
  function Escape(t: string): string {
    if t == "" then ""
    else if OpensAt(t, 0) then "$${" + Escape(t[2..])
    else [t[0]] + Escape(t[1..])
  }

  lemma EscapeHead(t: string)
    requires t != ""
    ensures Escape(t) != "" && Escape(t)[0] == t[0]
  {
  }

  lemma {:induction false} EscapeNeverOpens(t: string)
    ensures !OpensAt(Escape(t), 0)
    decreases |t|
  {
    if t != "" && !OpensAt(t, 0) && t[0] == '$' && |t| > 1 {
      EscapeHead(t[1..]);
      assert Escape(t)[1] == t[1];
    }
  }

  // Any text at all survives escaping and expansion, whatever the environment holds, and
  // no exception is thrown.
  lemma {:induction false} ExpandUndoesEscape(t: string, env: Lookup)
    ensures Meaning(Escape(t), env) == Success(t)
    decreases |t|
  {
    var s := Escape(t);
    if t == "" {
    } else if OpensAt(t, 0) {
      ExpandUndoesEscape(t[2..], env);
      assert s[3..] == Escape(t[2..]);
      assert Tokens(s)[1..] == Tokens(s[3..]);
      assert t == "${" + t[2..];
    } else {
      ExpandUndoesEscape(t[1..], env);
      assert s[1..] == Escape(t[1..]);
      EscapeNeverOpens(t);
      EscapeNeverOpens(t[1..]);
      assert |s| >= 3 ==> OpensAt(s, 1) == OpensAt(s[1..], 0);
      assert Tokens(s)[1..] == Tokens(s[1..]);
      assert t == [t[0]] + t[1..];
    }
  }

  // ---- Property arrays ----

  // The key of the i-th element: daemon.name[i]
  function ElementKey(name: string, i: nat): string {
    "daemon." + name + "[" + Decimal(i) + "]"
  }

  lemma ElementKeysDiffer(name: string, i: nat, j: nat)
    requires ElementKey(name, i) == ElementKey(name, j)
    ensures i == j
  {
    var head := "daemon." + name + "[";
    var a, b := ElementKey(name, i), ElementKey(name, j);
    assert a[|head|..|a| - 1] == Decimal(i);
    assert b[|head|..|b| - 1] == Decimal(j);
    NumeralOfDecimal(i);
    NumeralOfDecimal(j);
  }

  lemma {:induction false} SubsetSize<T>(a: set<T>, b: set<T>)
    requires a <= b
    ensures |a| <= |b|
  {
    if a != {} {
      var x :| x in a;
      SubsetSize(a - {x}, b - {x});
    }
  }

  ghost function KeysBelow(name: string, n: nat): set<string> {
    set i | 0 <= i < n :: ElementKey(name, i)
  }

  lemma {:induction false} KeysBelowSize(name: string, n: nat)
    ensures |KeysBelow(name, n)| == n
  {
    hide ElementKey;
    if n > 0 {
      KeysBelowSize(name, n - 1);
      var key := ElementKey(name, n - 1);
      if key in KeysBelow(name, n - 1) {
        var i :| 0 <= i < n - 1 && ElementKey(name, i) == key;
        ElementKeysDiffer(name, i, n - 1);
      }
      assert KeysBelow(name, n) == KeysBelow(name, n - 1) + {key};
    }
  }

  // A finite configuration holds finitely many elements: the loop below must end.
  lemma ElementsFit(config: map<string, string>, name: string, n: nat)
    requires forall i :: 0 <= i < n ==> ElementKey(name, i) in config
    ensures n <= |config|
  {
    KeysBelowSize(name, n);
    SubsetSize(KeysBelow(name, n), config.Keys);
  }

  // The first n elements exist and expand to the texts given.
  ghost predicate Elements(config: map<string, string>, name: string, env: Lookup, texts: seq<string>) {
    forall i :: 0 <= i < |texts| ==>
      ElementKey(name, i) in config && Meaning(config[ElementKey(name, i)], env) == Success(texts[i])
  }

  ghost predicate StandAt(config: map<string, string>, name: string, env: Lookup, texts: seq<string>) {
    forall i :: 0 <= i < |texts| ==>
      var key := "daemon." + name + "[" + Decimal(i) + "]";
      key in config && Meaning(config[key], env) == Success(texts[i])
  }

  lemma ElementsStand(config: map<string, string>, name: string, env: Lookup, texts: seq<string>)
    requires Elements(config, name, env, texts)
    ensures StandAt(config, name, env, texts)
  {
    hide Meaning, Decimal;
    forall i | 0 <= i < |texts|
      ensures ElementKey(name, i) == "daemon." + name + "[" + Decimal(i) + "]"
    {
      KeyIs(name, i);
    }
  }

  lemma KeyIs(name: string, i: nat)
    ensures ElementKey(name, i) == "daemon." + name + "[" + Decimal(i) + "]"
  {
  }

  // getPropertyArray: all elements up to the first missing index, or the index of the "${"
  // at which the first malformed one fails.
  method GetPropertyArray(config: map<string, string>, name: string, env: Lookup) returns (r: Result<seq<string>, nat>)
    ensures r.Success? ==> Elements(config, name, env, r.value) && ElementKey(name, |r.value|) !in config
    ensures r.Success? ==>
      StandAt(config, name, env, r.value) && "daemon." + name + "[" + Decimal(|r.value|) + "]" !in config
    ensures r.Failure? ==> exists texts: seq<string> ::
      var key := "daemon." + name + "[" + Decimal(|texts|) + "]";
      StandAt(config, name, env, texts) && key in config && r.error < |config[key]|
      && Meaning(config[key], env) == Failure(config[key][r.error..])
    ensures r.Failure? ==> exists texts: seq<string> ::
      Elements(config, name, env, texts) && ElementKey(name, |texts|) in config
      && r.error < |config[ElementKey(name, |texts|)]|
      && Meaning(config[ElementKey(name, |texts|)], env) == Failure(config[ElementKey(name, |texts|)][r.error..])
  {
    hide Meaning, ElementKey, StandAt;
    var list: seq<string> := [];
    while true
      invariant Elements(config, name, env, list) && |list| <= |config|
      decreases |config| - |list|
    {
      var key := ElementKey(name, |list|);
      ElementsStand(config, name, env, list);
      KeyIs(name, |list|);
      var args := ExpandProperty(if key in config then Some(config[key]) else None, env);
      if args.Failure? {
        return Failure(args.error);
      }
      if args.value.None? {
        return Success(list);
      }
      list := list + [args.value.value];
      ElementsFit(config, name, |list|);
    }
  }
}

/** pkg/dockerfile, `substitute`: one-pass expansion of build variables. */
module Expansion {
  import opened Text

  type Vars = map<string, string>

  /** How a text reads, left to right. */
  datatype Tok =
    | Lit(c: char)        // any byte but '$'
    | Escaped             // $$
    | Var(name: string)   // $NAME
    | Brace(expr: string) // ${...}
    | Open(rest: string)  // ${ with no closing brace before the end of the text
    | Bare                // a '$' that starts none of the above

  predicate NameChar(c: char) {
    c == '_' || 'a' <= c <= 'z' || 'A' <= c <= 'Z' || '0' <= c <= '9'
  }

  predicate AllName(s: string) { forall i :: 0 <= i < |s| ==> NameChar(s[i]) }

  function Render(t: Tok): string {
    match t
    case Lit(c) => [c]
    case Escaped => "$$"
    case Var(n) => "$" + n
    case Brace(x) => "${" + x + "}"
    case Open(r) => "${" + r
    case Bare => "$"
  }

  function RenderAll(ts: seq<Tok>): string {
    if ts == [] then [] else Render(ts[0]) + RenderAll(ts[1..])
  }

  /** `t` is a correct reading of its text when `rest` is what follows it. */
  predicate Fits(t: Tok, rest: string) {
    match t
    case Lit(c) => c != '$'
    case Escaped => true
    case Var(n) => n != [] && AllName(n) && (rest == [] || !NameChar(rest[0]))
    case Brace(x) => '}' !in x
    case Open(r) => '}' !in r && rest == []
    case Bare => rest == [] || (rest[0] != '$' && rest[0] != '{' && !NameChar(rest[0]))
  }

  predicate WellFormed(ts: seq<Tok>) {
    ts == [] || (Fits(ts[0], RenderAll(ts[1..])) && WellFormed(ts[1..]))
  }

  // ---- meaning ----

  /** Environment variables shadow build arguments. */
  function Lookup(name: string, args: Vars, env: Vars): Option<string> {
    if name in env then Some(env[name]) else if name in args then Some(args[name]) else None
  }

  /** `strings.Index`: the first position of `sub`, or -1. */
  function Find(s: string, sub: string): (i: int)
    ensures -1 <= i && (i >= 0 ==> i + |sub| <= |s| && s[i..i + |sub|] == sub)
  {
    if |s| < |sub| then -1
    else if s[..|sub|] == sub then 0
    else if s == [] then -1
    else var i := Find(s[1..], sub); if i < 0 then -1 else i + 1
  }

  /** The first position of a byte, or -1. */
  function IndexByte(s: string, c: char): (i: int)
    ensures -1 <= i < |s|
    ensures if i < 0 then c !in s else s[i] == c && c !in s[..i]
  {
    if s == [] then -1
    else if s[0] == c then 0
    else
      var i := IndexByte(s[1..], c);
      assert i >= 0 ==> s[..i + 1] == [s[0]] + s[1..][..i];
      if i < 0 then -1 else i + 1
  }

  /** The value of `${expr}`: plain, `:-default` or `:+alternative`. */
  function BraceValue(expr: string, args: Vars, env: Vars): string {
    var d, a := Find(expr, ":-"), Find(expr, ":+");
    if d >= 0 then
      var v := Lookup(expr[..d], args, env);
      if v.None? || v.value == "" then expr[d + 2..] else v.value
    else if a >= 0 then
      var v := Lookup(expr[..a], args, env);
      if v.Some? && v.value != "" then expr[a + 2..] else ""
    else
      var v := Lookup(expr, args, env);
      if v.Some? then v.value else ""
  }

  function Meaning(t: Tok, args: Vars, env: Vars): string {
    match t
    case Lit(c) => [c]
    case Escaped => "$"
    case Var(n) => var v := Lookup(n, args, env); if v.Some? then v.value else ""
    case Brace(x) => BraceValue(x, args, env)
    case Open(r) => "${" + r
    case Bare => "$"
  }

  function MeaningAll(ts: seq<Tok>, args: Vars, env: Vars): string {
    if ts == [] then [] else Meaning(ts[0], args, env) + MeaningAll(ts[1..], args, env)
  }

  // ---- reading ----

  /** Length of the longest prefix made of name characters. */
  function NameLen(s: string): (n: nat)
    ensures n <= |s| && AllName(s[..n]) && (n < |s| ==> !NameChar(s[n]))
  {
    if s == [] || !NameChar(s[0]) then 0 else 1 + NameLen(s[1..])
  }

  /** The first token of a text, and what follows it. */
  function Next(s: string): (r: (Tok, string))
    requires s != []
    ensures |r.1| < |s|
  {
    if s[0] != '$' then (Lit(s[0]), s[1..])
    else if |s| > 1 && s[1] == '$' then (Escaped, s[2..])
    else if |s| > 1 && s[1] == '{' then
      var end := IndexByte(s[2..], '}');
      if end < 0 then (Open(s[2..]), []) else (Brace(s[2..2 + end]), s[2 + end + 1..])
    else
      var n := NameLen(s[1..]);
      if n == 0 then (Bare, s[1..]) else (Var(s[1..1 + n]), s[1 + n..])
  }

  function Tokenize(s: string): seq<Tok>
    decreases |s|
  {
    if s == [] then [] else var (t, rest) := Next(s); [t] + Tokenize(rest)
  }

  /** The text `s` with its variables expanded. */
  function Expand(s: string, args: Vars, env: Vars): string {
    MeaningAll(Tokenize(s), args, env)
  }

  lemma BraceReads(s: string)
    requires |s| > 1 && s[0] == '$' && s[1] == '{'
    ensures var (t, rest) := Next(s); s == Render(t) + rest && Fits(t, rest)
  {
    var body := s[2..];
    assert s == "${" + body;
    var end := IndexByte(body, '}');
    if end >= 0 {
      var x, rest := body[..end], body[end + 1..];
      assert s[2..2 + end] == x && s[2 + end + 1..] == rest;
      assert body == x + "}" + rest;
    }
  }

  lemma NameReads(s: string)
    requires s != [] && s[0] == '$' && (|s| == 1 || (s[1] != '$' && s[1] != '{'))
    ensures var (t, rest) := Next(s); s == Render(t) + rest && Fits(t, rest)
  {
    var body := s[1..];
    var n := NameLen(body);
    assert s == "$" + body;
    assert body == body[..n] + body[n..];
    assert s[1..1 + n] == body[..n] && s[1 + n..] == body[n..];
  }

  lemma NextReads(s: string)
    requires s != []
    ensures var (t, rest) := Next(s); s == Render(t) + rest && Fits(t, rest)
  {
    if s[0] != '$' {
    } else if |s| > 1 && s[1] == '{' {
      BraceReads(s);
    } else if |s| > 1 && s[1] == '$' {
      assert s == "$$" + s[2..];
    } else {
      NameReads(s);
    }
  }

  /** Every text has a reading: tokenizing is lossless and well formed. */
  lemma {:induction false} TokenizeReads(s: string)
    ensures RenderAll(Tokenize(s)) == s && WellFormed(Tokenize(s))
    decreases |s|
  {
    if s != [] {
      var (t, rest) := Next(s);
      NextReads(s);
      TokenizeReads(rest);
      assert Tokenize(s)[1..] == Tokenize(rest);
    }
  }

  /** And only one: a well-formed reading is the tokenization of its text. */
  lemma {:induction false} ReadingUnique(ts: seq<Tok>)
    requires WellFormed(ts)
    ensures Tokenize(RenderAll(ts)) == ts
  {
    if ts != [] {
      var t, rest := ts[0], RenderAll(ts[1..]);
      var s := Render(t) + rest;
      ReadingUnique(ts[1..]);
      TokenHead(t, rest);
      assert ts == [t] + ts[1..];
    }
  }

  lemma {:induction false} IndexFirst(x: string, c: char, rest: string)
    requires c !in x
    ensures IndexByte(x + [c] + rest, c) == |x|
  {
    var s := x + [c] + rest;
    if x != [] {
      IndexFirst(x[1..], c, rest);
      assert s[1..] == x[1..] + [c] + rest;
    }
  }

  lemma {:induction false} NameLenOf(n: string, rest: string)
    requires AllName(n) && (rest == [] || !NameChar(rest[0]))
    ensures NameLen(n + rest) == |n|
  {
    var s := n + rest;
    if n != [] {
      NameLenOf(n[1..], rest);
      assert s[1..] == n[1..] + rest;
    }
  }

  lemma NextBrace(x: string, rest: string)
    requires '}' !in x
    ensures Next("${" + x + "}" + rest) == (Brace(x), rest)
  {
    var s := "${" + x + "}" + rest;
    IndexFirst(x, '}', rest);
    assert s[2..] == x + ['}'] + rest && s[2..2 + |x|] == x && s[2 + |x| + 1..] == rest;
  }

  lemma NextVar(n: string, rest: string)
    requires n != [] && AllName(n) && (rest == [] || !NameChar(rest[0]))
    ensures Next("$" + n + rest) == (Var(n), rest)
  {
    var s := "$" + n + rest;
    NameLenOf(n, rest);
    assert s[1..] == n + rest && s[1..1 + |n|] == n && s[1 + |n|..] == rest;
    assert s[1] == n[0];
  }

  /** The first token of a text that starts with a fitting token is that token. */
  lemma TokenHead(t: Tok, rest: string)
    requires Fits(t, rest)
    ensures Tokenize(Render(t) + rest) == [t] + Tokenize(rest)
  {
    var s := Render(t) + rest;
    match t
    case Lit(c) => assert s[1..] == rest;
    case Escaped => assert s[2..] == rest;
    case Bare => assert s[1..] == rest; NameLenOf("", rest);
    case Var(n) => NextVar(n, rest);
    case Brace(x) => NextBrace(x, rest);
    case Open(r) =>
      assert s[2..] == r;
  }

  // ---- the loop ----

  /** The end of the variable name that starts at `start`. */
  method ScanName(s: string, start: nat) returns (j: nat)
    requires start <= |s|
    ensures start <= j <= |s| && j == start + NameLen(s[start..])
  {
    j := start;
    while j < |s| && NameChar(s[j])
      invariant start <= j <= |s| && AllName(s[start..j])
    {
      assert s[start..j + 1] == s[start..j] + [s[j]];
      j := j + 1;
    }
    NameLenOf(s[start..j], s[j..]);
    assert s[start..] == s[start..j] + s[j..];
  }

  /** The `${expr}` case analysis. */
  method BraceExpr(expr: string, args: Vars, env: Vars) returns (out: string)
    ensures out == BraceValue(expr, args, env)
  {
    var name, def, hasDefault, alt, hasAlt := expr, "", false, "", false;
    var idx := Find(expr, ":-");
    if idx >= 0 {
      name, def, hasDefault := expr[..idx], expr[idx + 2..], true;
    } else {
      idx := Find(expr, ":+");
      if idx >= 0 { name, alt, hasAlt := expr[..idx], expr[idx + 2..], true; }
    }
    var val := Lookup(name, args, env);
    if hasDefault && (val.None? || val.value == "") {
      out := def;
    } else if hasAlt && val.Some? && val.value != "" {
      out := alt;
    } else if val.Some? {
      out := val.value;
    } else {
      out := "";
    }
  }

  /** The loop's `${` branch. */
  method BraceTurn(s: string, i: nat, args: Vars, env: Vars) returns (piece: string, k: nat)
    requires i + 1 < |s| && s[i] == '$' && s[i + 1] == '{'
    ensures i < k <= |s| && s[k..] == Next(s[i..]).1
    ensures piece == Meaning(Next(s[i..]).0, args, env)
  {
    ghost var rest := s[i..];
    assert rest[2..] == s[i + 2..];
    var end := IndexByte(s[i + 2..], '}');
    if end < 0 {
      assert rest == "${" + s[i + 2..];
      return s[i..], |s|;
    }
    var expr := s[i + 2..i + 2 + end];
    assert rest[2..2 + end] == expr && rest[2 + end + 1..] == s[i + 2 + end + 1..];
    assert Next(rest) == (Brace(expr), s[i + 2 + end + 1..]);
    piece := BraceExpr(expr, args, env);
    k := i + 2 + end + 1;
  }

  /** The loop's `$NAME` and lone-`$` branches. */
  method NameTurn(s: string, i: nat, args: Vars, env: Vars) returns (piece: string, k: nat)
    requires i < |s| && s[i] == '$' && (i + 1 == |s| || (s[i + 1] != '$' && s[i + 1] != '{'))
    ensures i < k <= |s| && s[k..] == Next(s[i..]).1
    ensures piece == Meaning(Next(s[i..]).0, args, env)
  {
    ghost var rest := s[i..];
    assert rest[1..] == s[i + 1..];
    var j := ScanName(s, i + 1);
    if j == i + 1 {
      assert Next(rest) == (Bare, s[i + 1..]);
      return "$", i + 1;
    }
    assert rest[1..j - i] == s[i + 1..j] && rest[j - i..] == s[j..];
    assert Next(rest) == (Var(s[i + 1..j]), s[j..]);
    var val := Lookup(s[i + 1..j], args, env);
    return if val.Some? then val.value else "", j;
  }

  /** One turn of the loop: what to write, and where to go on. */
  method Turn(s: string, i: nat, args: Vars, env: Vars) returns (piece: string, k: nat)
    requires i < |s|
    ensures i < k <= |s| && s[k..] == Next(s[i..]).1
    ensures piece == Meaning(Next(s[i..]).0, args, env)
  {
    if s[i] != '$' {
      assert Next(s[i..]) == (Lit(s[i]), s[i + 1..]);
      return [s[i]], i + 1;
    }
    if i + 1 < |s| && s[i + 1] == '$' {
      assert Next(s[i..]) == (Escaped, s[i + 2..]);
      return "$", i + 2;
    }
    if i + 1 < |s| && s[i + 1] == '{' {
      piece, k := BraceTurn(s, i, args, env);
      return;
    }
    piece, k := NameTurn(s, i, args, env);
  }

  /** `substitute` gives the meaning of the one well-formed reading of its text. */
  method Substitute(s: string, args: Vars, env: Vars) returns (b: string)
    ensures b == Expand(s, args, env)
    ensures forall ts :: WellFormed(ts) && RenderAll(ts) == s ==> b == MeaningAll(ts, args, env)
  {
    hide Next;
    hide Meaning;
    hide Expand;
    b := "";
    var i := 0;
    assert s[0..] == s;
    while i < |s|
      invariant 0 <= i <= |s|
      invariant Expand(s, args, env) == b + Expand(s[i..], args, env)
    {
      var piece, k := Turn(s, i, args, env);
      ExpandStep(s[i..], args, env);
      b, i := b + piece, k;
    }
    assert s[i..] == "";
    ExpandStep("", args, env);
    forall ts | WellFormed(ts) && RenderAll(ts) == s ensures b == MeaningAll(ts, args, env) {
      ReadingUnique(ts);
      ExpandReads(s, ts, args, env);
    }
  }

  lemma ExpandStep(s: string, args: Vars, env: Vars)
    ensures Expand(s, args, env) ==
            if s == [] then [] else Meaning(Next(s).0, args, env) + Expand(Next(s).1, args, env)
  {
    hide Meaning;
    hide Next;
  }

  lemma ExpandReads(s: string, ts: seq<Tok>, args: Vars, env: Vars)
    requires Tokenize(s) == ts
    ensures Expand(s, args, env) == MeaningAll(ts, args, env)
  {
  }

  // ---- laws ----

  /** Text without '$' is left alone. */
  lemma {:induction false} DollarFree(s: string, args: Vars, env: Vars)
    requires '$' !in s
    ensures Expand(s, args, env) == s
  {
    if s != [] { DollarFree(s[1..], args, env); }
  }

  function Double(s: string): string {
    if s == [] then [] else (if s[0] == '$' then "$$" else [s[0]]) + Double(s[1..])
  }

  /** Doubling every '$' is undone by expansion, whatever the variables. */
  lemma {:induction false} DoubleRoundTrip(s: string, args: Vars, env: Vars)
    ensures Expand(Double(s), args, env) == s
  {
    if s != [] {
      var t := if s[0] == '$' then Escaped else Lit(s[0]);
      DoubleRoundTrip(s[1..], args, env);
      TokenHead(t, Double(s[1..]));
    }
  }

  /** Shadowing: the environment acts as if merged over the arguments. */
  lemma {:induction false} EnvShadowsArgs(s: string, args: Vars, env: Vars)
    ensures Expand(s, args, env) == Expand(s, args + env, map[])
  {
    ShadowTokens(Tokenize(s), args, env);
  }

  lemma {:induction false} ShadowTokens(ts: seq<Tok>, args: Vars, env: Vars)
    ensures MeaningAll(ts, args, env) == MeaningAll(ts, args + env, map[])
  {
    if ts != [] {
      ShadowTokens(ts[1..], args, env);
      ShadowToken(ts[0], args, env);
    }
  }

  lemma ShadowToken(t: Tok, args: Vars, env: Vars)
    ensures Meaning(t, args, env) == Meaning(t, args + env, map[])
  {
    if t.Brace? {
      var d, a := Find(t.expr, ":-"), Find(t.expr, ":+");
      var n := if d >= 0 then t.expr[..d] else if a >= 0 then t.expr[..a] else t.expr;
      assert Lookup(n, args, env) == Lookup(n, args + env, map[]);
    }
  }

  /** Inserted text is final: whatever a token stands for is copied as it is, even if it contains
      '$', and the rest of the text expands as if it stood alone. */
  lemma InsertedTextIsFinal(t: Tok, rest: string, args: Vars, env: Vars)
    requires Fits(t, rest)
    ensures Expand(Render(t) + rest, args, env) == Meaning(t, args, env) + Expand(rest, args, env)
  {
    TokenHead(t, rest);
  }

  lemma {:induction false} FindAfter(n: string, op: char, d: string)
    requires op != ':' && Find(n, [':', op]) < 0
    ensures Find(n + [':', op] + d, [':', op]) == |n|
  {
    var s, sub := n + [':', op] + d, [':', op];
    if n == [] {
      assert s[..2] == sub;
    } else {
      assert Find(n[1..], sub) < 0;
      FindAfter(n[1..], op, d);
      assert s[1..] == n[1..] + sub + d && s[0] == n[0];
      assert s[..2] == [n[0], if |n| == 1 then ':' else n[1]];
      assert |n| > 1 ==> n[..2] == [n[0], n[1]] && n[..2] != sub;
    }
  }

  // ---- what each form gives, from its text ----

  /** The bytes a name is made of. */
  predicate InName(c: char) { c == '_' || c in DIGITS || c in LOWER || c in UPPER }

  lemma InNameIff(c: char)
    ensures NameChar(c) <==> InName(c)
  {
    DigitIff(c);
    LowerIff(c);
    UpperIff(c);
  }

  /** `$NAME`, up to the first byte that cannot belong to a name, gives the variable's value. */
  lemma NameGivesValue(n: string, rest: string, args: Vars, env: Vars)
    requires n != [] && (forall i :: 0 <= i < |n| ==> InName(n[i])) && (rest == [] || !InName(rest[0]))
    ensures Expand("$" + n + rest, args, env) ==
            (if n in env then env[n] else if n in args then args[n] else "") + Expand(rest, args, env)
  {
    forall i | 0 <= i < |n| ensures NameChar(n[i]) { InNameIff(n[i]); }
    if rest != [] { InNameIff(rest[0]); }
    InsertedTextIsFinal(Var(n), rest, args, env);
  }

  /** `op` does not follow a colon in `n`. */
  predicate NoOperator(n: string, op: char) {
    forall i :: 0 <= i < |n| - 1 ==> !(n[i] == ':' && n[i + 1] == op)
  }

  lemma {:induction false} NotFound(n: string, op: char)
    requires NoOperator(n, op)
    ensures Find(n, [':', op]) < 0
  {
    if |n| >= 2 {
      assert n[..2] == [n[0], n[1]];
      NotFound(n[1..], op);
    }
  }

  /** `${NAME}` gives the value too. Any text without a closing brace or an operator is a name. */
  lemma BraceGivesValue(n: string, rest: string, args: Vars, env: Vars)
    requires '}' !in n && NoOperator(n, '-') && NoOperator(n, '+')
    ensures Expand("${" + n + "}" + rest, args, env) ==
            (if n in env then env[n] else if n in args then args[n] else "") + Expand(rest, args, env)
  {
    NotFound(n, '-');
    NotFound(n, '+');
    InsertedTextIsFinal(Brace(n), rest, args, env);
  }

  lemma DefaultValue(n: string, d: string, args: Vars, env: Vars)
    requires NoOperator(n, '-')
    ensures var v := if n in env then env[n] else if n in args then args[n] else "";
            BraceValue(n + [':', '-'] + d, args, env) == if v == "" then d else v
  {
    var x := n + [':', '-'] + d;
    NotFound(n, '-');
    FindAfter(n, '-', d);
    hide Find;
    assert x[..|n|] == n && x[|n| + 2..] == d;
  }

  lemma AlternativeValue(n: string, a: string, args: Vars, env: Vars)
    requires NoOperator(n, '+') && NoOperator(n + [':', '+'] + a, '-')
    ensures var v := if n in env then env[n] else if n in args then args[n] else "";
            BraceValue(n + [':', '+'] + a, args, env) == if v == "" then "" else a
  {
    var x := n + [':', '+'] + a;
    NotFound(x, '-');
    NotFound(n, '+');
    FindAfter(n, '+', a);
    hide Find;
    assert x[..|n|] == n && x[|n| + 2..] == a;
  }

  /** `${NAME:-default}`: the default stands in for an unset or empty variable. The name ends at
      the first `:-`. */
  lemma DefaultForm(n: string, d: string, rest: string, args: Vars, env: Vars)
    requires '}' !in n && '}' !in d && NoOperator(n, '-')
    ensures var v := if n in env then env[n] else if n in args then args[n] else "";
            Expand("${" + n + ":-" + d + "}" + rest, args, env) == (if v == "" then d else v) + Expand(rest, args, env)
  {
    hide Expand;
    hide BraceValue;
    var x := n + [':', '-'] + d;
    DefaultValue(n, d, args, env);
    InsertedTextIsFinal(Brace(x), rest, args, env);
    assert "${" + n + ":-" + d + "}" + rest == Render(Brace(x)) + rest;
  }

  /** `${NAME:+alt}`: the alternative replaces a set, non-empty variable; `:-` anywhere in the
      braces takes precedence over `:+`, and the name ends at the first `:+`. */
  lemma AlternativeForm(n: string, a: string, rest: string, args: Vars, env: Vars)
    requires '}' !in n && '}' !in a && NoOperator(n, '+') && NoOperator(n + [':', '+'] + a, '-')
    ensures var v := if n in env then env[n] else if n in args then args[n] else "";
            Expand("${" + n + ":+" + a + "}" + rest, args, env) == (if v == "" then "" else a) + Expand(rest, args, env)
  {
    hide Expand;
    hide BraceValue;
    var x := n + [':', '+'] + a;
    AlternativeValue(n, a, args, env);
    InsertedTextIsFinal(Brace(x), rest, args, env);
    assert "${" + n + ":+" + a + "}" + rest == Render(Brace(x)) + rest;
  }

  // ---- when expansion is the identity ----

  /** Tokens that stand for themselves. */
  predicate Inert(ts: seq<Tok>) {
    forall i :: 0 <= i < |ts| ==> ts[i].Lit? || ts[i].Bare? || ts[i].Open?
  }

  function Dollars(s: string): nat {
    if s == [] then 0 else (if s[0] == '$' then 1 else 0) + Dollars(s[1..])
  }

  lemma {:induction false} DollarsConcat(a: string, b: string)
    ensures Dollars(a + b) == Dollars(a) + Dollars(b)
  {
    if a == [] { assert a + b == b; } else {
      DollarsConcat(a[1..], b);
      assert (a + b)[1..] == a[1..] + b;
    }
  }

  lemma {:induction false} InertIsIdentity(ts: seq<Tok>, args: Vars, env: Vars)
    requires Inert(ts)
    ensures MeaningAll(ts, args, env) == RenderAll(ts)
  {
    if ts != [] { InertIsIdentity(ts[1..], args, env); }
  }

  lemma BraceLosesDollar(x: string)
    ensures Dollars(BraceValue(x, map[], map[])) < Dollars("${" + x + "}")
  {
    hide Find;
    var d := Find(x, ":-");
    assert ("${" + x + "}")[1..] == "{" + x + "}";
    DollarsConcat("{" + x, "}");
    DollarsConcat("{", x);
    if d >= 0 {
      DollarsConcat(x[..d + 2], x[d + 2..]);
      assert x == x[..d + 2] + x[d + 2..];
    }
  }

  lemma TokenLosesDollar(t: Tok)
    ensures Dollars(Meaning(t, map[], map[])) <= Dollars(Render(t))
    ensures !Inert([t]) ==> Dollars(Meaning(t, map[], map[])) < Dollars(Render(t))
  {
    hide BraceValue;
    match t
    case Lit(_) =>
    case Escaped =>
    case Bare =>
    case Open(_) =>
    case Var(n) => assert ("$" + n)[1..] == n;
    case Brace(x) => BraceLosesDollar(x);
  }

  /** With no variables set, every active token costs at least one '$'. */
  lemma {:induction false} ActiveLosesDollar(ts: seq<Tok>)
    ensures Dollars(MeaningAll(ts, map[], map[])) <= Dollars(RenderAll(ts))
    ensures !Inert(ts) ==> Dollars(MeaningAll(ts, map[], map[])) < Dollars(RenderAll(ts))
  {
    if ts != [] {
      ActiveLosesDollar(ts[1..]);
      TokenLosesDollar(ts[0]);
      DollarsConcat(Render(ts[0]), RenderAll(ts[1..]));
      DollarsConcat(Meaning(ts[0], map[], map[]), MeaningAll(ts[1..], map[], map[]));
      assert ts == [ts[0]] + ts[1..];
      assert Inert([ts[0]]) && Inert(ts[1..]) ==> Inert(ts);
    }
  }

  /** Expansion is the identity for every choice of variables exactly on inert text. */
  lemma IdentityIffInert(s: string)
    ensures (forall args, env :: Expand(s, args, env) == s) <==> Inert(Tokenize(s))
  {
    TokenizeReads(s);
    if Inert(Tokenize(s)) {
      forall args, env ensures Expand(s, args, env) == s { InertIsIdentity(Tokenize(s), args, env); }
    } else {
      ActiveLosesDollar(Tokenize(s));
      assert Expand(s, map[], map[]) != s;
    }
  }
}

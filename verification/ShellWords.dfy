/** pkg/dockerfile, `shellQuote` and `shellJoin`, against the quoting (2.2) and token
    recognition (2.3) rules of the Shell Command Language in POSIX.1-2017 XCU. */
module ShellWords {
  import opened Text
  import opened Expansion

  datatype Mode = Plain | Single | Double

  /** Bytes that end a word or call for more than quote removal when they stand unquoted. */
  predicate Special(c: char) {
    c in "|&;<>()$`\n*?[#~%!{}"
  }

  predicate Blank(c: char) { c == ' ' || c == '\t' }

  function Cons<T>(w: T, r: Option<seq<T>>): Option<seq<T>> {
    if r.None? then None else Some([w] + r.value)
  }

  /** The bytes of the word read so far, `""` if none has been started. */
  function SoFar(cur: Option<string>): string {
    if cur.Some? then cur.value else ""
  }

  /** The words of a command line after token recognition and quote removal; `None` if a quote
      is left open or the line needs operators, expansions or patterns to be understood. */
  function Words(s: string, cur: Option<string>, mode: Mode): Option<seq<string>>
    decreases |s|
  {
    if s == [] then
      if mode != Plain then None else Some(if cur.Some? then [cur.value] else [])
    else match mode
      case Single =>
        if s[0] == '\'' then Words(s[1..], Some(SoFar(cur)), Plain)
        else Words(s[1..], Some(SoFar(cur) + [s[0]]), Single)
      case Double =>
        if s[0] == '"' then Words(s[1..], Some(SoFar(cur)), Plain)
        else if s[0] == '$' || s[0] == '`' then None
        else if s[0] == '\\' && |s| > 1 && s[1] in "$`\"\\" then Words(s[2..], Some(SoFar(cur) + [s[1]]), Double)
        else if s[0] == '\\' && |s| > 1 && s[1] == '\n' then Words(s[2..], Some(SoFar(cur)), Double)
        else Words(s[1..], Some(SoFar(cur) + [s[0]]), Double)
      case Plain =>
        if Blank(s[0]) then
          if cur.Some? then Cons(cur.value, Words(s[1..], None, Plain)) else Words(s[1..], None, Plain)
        else if s[0] == '\'' then Words(s[1..], Some(SoFar(cur)), Single)
        else if s[0] == '"' then Words(s[1..], Some(SoFar(cur)), Double)
        else if s[0] == '\\' then
          if |s| == 1 then None
          else if s[1] == '\n' then Words(s[2..], cur, Plain)
          else Words(s[2..], Some(SoFar(cur) + [s[1]]), Plain)
        else if Special(s[0]) then None
        else Words(s[1..], Some(SoFar(cur) + [s[0]]), Plain)
  }

  function Lex(s: string): Option<seq<string>> { Words(s, None, Plain) }

  lemma EndReads(c: char)
    ensures Words([], None, Plain) == Some([]) && Words([], Some([c]), Plain) == Some([[c]])
    ensures Words(['\''], Some([c]), Single) == Some([[c]]) && Words(['"'], Some([c]), Double) == Some([[c]])
    ensures Words(['\''], Some([]), Plain) == None && Words(['"'], Some([]), Plain) == None
    ensures Words(['"'], Some([]), Double) == Some([[]])
  {
    assert ['\''][1..] == [] && ['"'][1..] == [];
    assert Words([], Some([]), Single) == None && Words([], Some([]), Double) == None;
  }

  /** A single character bare, after a backslash, in single and in double quotes. */
  lemma OneCharReads(c: char)
    ensures Lex([c]) == if c in " \t" then Some([]) else if c in "'\"\\" || Special(c) then None else Some([[c]])
    ensures Lex(['\\', c]) == Some(if c == '\n' then [] else [[c]])
    ensures Lex(['\'', c, '\'']) == if c == '\'' then None else Some([[c]])
    ensures Lex(['"', c, '"']) == if c in "$`\"\\" then None else Some([[c]])
  {
    EndReads(c);
    EndReads('"');
    assert [c][1..] == [] && ['\\', c][2..] == [] && [] + [c] == [c] && [] + ['"'] == ['"'];
    assert ['\'', c, '\''][1..] == [c, '\''] && [c, '\''][1..] == ['\''];
    assert ['"', c, '"'][1..] == [c, '"'] && [c, '"'][1..] == ['"'] && [c, '"'][2..] == [];
    assert Words([], Some([]), Single) == None && Words([], Some([]), Double) == None;
    assert Words([], Some(['"']), Double) == None;
    assert Words([c, '\''], Some([]), Single) == if c == '\'' then None else Some([[c]]);
    assert Words([c, '"'], Some([]), Double) == if c in "$`\"\\" then None else Some([[c]]);
  }

  // ---- the printer ----

  predicate SafeChar(c: char) {
    'a' <= c <= 'z' || 'A' <= c <= 'Z' || '0' <= c <= '9' || c in "_-./:="
  }

  predicate Safe(s: string) { forall i :: 0 <= i < |s| ==> SafeChar(s[i]) }

  /** `strings.ReplaceAll(s, "'", "'\"'\"'")`. */
  function Escape(s: string): string {
    if s == [] then [] else (if s[0] == '\'' then "'\"'\"'" else [s[0]]) + Escape(s[1..])
  }

  function Quote(s: string): string {
    if s == [] then "''" else if Safe(s) then s else "'" + Escape(s) + "'"
  }

  function JoinQuoted(parts: seq<string>): string {
    if parts == [] then []
    else if |parts| == 1 then Quote(parts[0])
    else Quote(parts[0]) + " " + JoinQuoted(parts[1..])
  }

  /** A safe byte is an ordinary part of a word. */
  lemma SafeStep(c: char, rest: string, cur: Option<string>)
    requires SafeChar(c)
    ensures Words([c] + rest, cur, Plain) == Words(rest, Some(SoFar(cur) + [c]), Plain)
  {
    assert !Special(c) && !Blank(c) && c != '\'' && c != '"' && c != '\\';
    assert ([c] + rest)[1..] == rest;
  }

  lemma {:induction false} SafeLexes(w: string, cur: Option<string>, rest: string)
    requires Safe(w) && (w != [] || cur.Some?)
    ensures Words(w + rest, cur, Plain) == Words(rest, Some(SoFar(cur) + w), Plain)
  {
    hide Words;
    hide SafeChar;
    if w == [] {
      assert w + rest == rest && SoFar(cur) + w == cur.value;
    } else {
      SafeStep(w[0], w[1..] + rest, cur);
      assert w + rest == [w[0]] + (w[1..] + rest);
      SafeLexes(w[1..], Some(SoFar(cur) + [w[0]]), rest);
      assert SoFar(cur) + [w[0]] + w[1..] == SoFar(cur) + w;
    }
  }

  /** Inside single quotes, a single quote ends them and any other byte stands for itself. */
  lemma InQuotes(c: char, rest: string, cur: string)
    ensures Words([c] + rest, Some(cur), Single) ==
            if c == '\'' then Words(rest, Some(cur), Plain) else Words(rest, Some(cur + [c]), Single)
  {
    assert ([c] + rest)[1..] == rest;
  }

  lemma {:induction false} EscapeLexes(w: string, cur: string, rest: string)
    ensures Words(Escape(w) + "'" + rest, Some(cur), Single) == Words(rest, Some(cur + w), Plain)
  {
    hide Words;
    var s := Escape(w) + "'" + rest;
    if w == [] {
      InQuotes('\'', rest, cur);
      assert s == ['\''] + rest && cur + w == cur;
    } else {
      EscapeLexes(w[1..], cur + [w[0]], rest);
      var s' := Escape(w[1..]) + "'" + rest;
      assert cur + [w[0]] + w[1..] == cur + w;
      if w[0] == '\'' {
        QuoteBreak(s', cur);
        assert s == "'\"'\"'" + s' && [w[0]] == "'";
      } else {
        InQuotes(w[0], s', cur);
        assert s == [w[0]] + s';
      }
    }
  }

  /** `'"'"'` inside single quotes contributes one single quote and stays inside. */
  lemma QuoteBreak(rest: string, cur: string)
    ensures Words("'\"'\"'" + rest, Some(cur), Single) == Words(rest, Some(cur + "'"), Single)
  {
    var s := "'\"'\"'" + rest;
    assert Words(s, Some(cur), Single) == Words(s[1..], Some(cur), Plain);
    assert Words(s[1..], Some(cur), Plain) == Words(s[1..][1..], Some(cur), Double);
    assert s[1..][1..] == s[2..] && s[2..][1..] == s[3..] && s[3..][1..] == s[4..] && s[4..][1..] == rest;
    assert Words(s[2..], Some(cur), Double) == Words(s[3..], Some(cur + "'"), Double);
    assert Words(s[3..], Some(cur + "'"), Double) == Words(s[4..], Some(cur + "'"), Plain);
    assert Words(s[4..], Some(cur + "'"), Plain) == Words(rest, Some(cur + "'"), Single);
  }

  lemma EscapeNothing()
    ensures Escape("") == ""
  {
  }

  lemma QuoteOpens(rest: string)
    ensures Words("'" + rest, None, Plain) == Words(rest, Some(""), Single)
  {
    assert ("'" + rest)[1..] == rest;
  }

  lemma QuoteLexes(w: string, rest: string)
    ensures Words(Quote(w) + rest, None, Plain) == Words(rest, Some(w), Plain)
  {
    hide Words;
    hide Escape;
    if w != [] && Safe(w) {
      SafeLexes(w, None, rest);
      assert "" + w == w;
    } else {
      EscapeLexes(w, "", rest);
      QuoteOpens(Escape(w) + "'" + rest);
      assert Escape("") == "" by { EscapeNothing(); }
      assert "" + w == w && Quote(w) + rest == "'" + (Escape(w) + "'" + rest);
    }
  }

  lemma EndsWord(w: string)
    ensures Words("", Some(w), Plain) == Some([w]) && Lex("") == Some([])
  {
  }

  lemma BlankEndsWord(w: string, rest: string)
    ensures Words(" " + rest, Some(w), Plain) == Cons(w, Words(rest, None, Plain))
  {
    assert (" " + rest)[1..] == rest;
  }

  /** The shell reads a joined command line back as the list it was made from. */
  lemma {:induction false} JoinRoundTrip(parts: seq<string>)
    ensures Lex(JoinQuoted(parts)) == Some(parts)
  {
    hide Words;
    hide Quote;
    if parts == [] {
      EndsWord("");
    } else if |parts| == 1 {
      QuoteLexes(parts[0], "");
      EndsWord(parts[0]);
      assert Quote(parts[0]) + "" == Quote(parts[0]) && parts == [parts[0]];
    } else {
      var rest := JoinQuoted(parts[1..]);
      QuoteLexes(parts[0], " " + rest);
      BlankEndsWord(parts[0], rest);
      JoinRoundTrip(parts[1..]);
      assert Quote(parts[0]) + (" " + rest) == JoinQuoted(parts);
      assert parts == [parts[0]] + parts[1..];
    }
  }

  /** In front of anything else, a command word and a quoted operand are read as those two words,
      and reading goes on unquoted. */
  lemma CommandLexes(w: string, arg: string, rest: string)
    requires Safe(w) && w != []
    ensures Words(w + " " + Quote(arg) + " " + rest, None, Plain) == Cons(w, Cons(arg, Words(rest, None, Plain)))
  {
    hide Words;
    hide Quote;
    var tail := Quote(arg) + (" " + rest);
    assert w + " " + Quote(arg) + " " + rest == w + (" " + tail);
    SafeLexes(w, None, " " + tail);
    assert [] + w == w;
    BlankEndsWord(w, tail);
    QuoteLexes(arg, " " + rest);
    BlankEndsWord(arg, rest);
  }

  /** A word is left as it is exactly if it is made of letters, digits and `_-./:=`; any other is put
      in single quotes. */
  lemma QuoteBareIff(s: string)
    ensures Quote(s) == s <==> s != [] && forall i :: 0 <= i < |s| ==> InName(s[i]) || s[i] in "-./:="
    ensures Quote(s) != s ==> |Quote(s)| >= 2 && Quote(s)[0] == '\'' && Quote(s)[|Quote(s)| - 1] == '\''
  {
    forall i | 0 <= i < |s| ensures SafeChar(s[i]) <==> InName(s[i]) || s[i] in "-./:=" { SafeCharIff(s[i]); }
    hide SafeChar;
    hide InName;
    EscapeLonger(s);
    hide Escape;
  }

  lemma SafeCharIff(c: char)
    ensures SafeChar(c) <==> InName(c) || c in "-./:="
  {
    InNameIff(c);
    assert c in "_-./:=" <==> c == '_' || c in "-./:=" by {
      assert "_-./:=" == "_" + "-./:=";
    }
  }

  lemma {:induction false} EscapeLonger(s: string)
    ensures |Escape(s)| >= |s|
  {
    if s != [] { EscapeLonger(s[1..]); }
  }

  lemma QuoteIsWord(s: string)
    ensures Lex(Quote(s)) == Some([s])
  {
    hide Words;
    hide Quote;
    QuoteLexes(s, "");
    EndsWord(s);
    assert Quote(s) + "" == Quote(s);
  }

  /** `shellQuote`. */
  method ShellQuote(s: string) returns (r: string)
    ensures r == Quote(s)
    ensures Lex(r) == Some([s])
  {
    hide Lex;
    hide SafeChar;
    hide Escape;
    QuoteIsWord(s);
    if s == "" { return "''"; }
    var safe := true;
    for i := 0 to |s|
      invariant safe && forall k :: 0 <= k < i ==> SafeChar(s[k])
    {
      if !SafeChar(s[i]) {
        safe := false;
        break;
      }
    }
    r := if safe then s else "'" + Escape(s) + "'";
  }

  /** `shellJoin`. */
  method ShellJoin(parts: seq<string>) returns (r: string)
    ensures r == JoinQuoted(parts)
    ensures Lex(r) == Some(parts)
  {
    var quoted: seq<string> := [];
    for i := 0 to |parts|
      invariant |quoted| == i && forall k :: 0 <= k < i ==> quoted[k] == Quote(parts[k])
    {
      var q := ShellQuote(parts[i]);
      quoted := quoted + [q];
    }
    r := Join(quoted, " ");
    JoinOfQuoted(parts, quoted);
    JoinRoundTrip(parts);
  }

  /** `strings.Join`. */
  function Join(words: seq<string>, sep: string): string {
    if words == [] then [] else if |words| == 1 then words[0] else words[0] + sep + Join(words[1..], sep)
  }

  lemma {:induction false} JoinOfQuoted(parts: seq<string>, quoted: seq<string>)
    requires |quoted| == |parts| && forall k :: 0 <= k < |parts| ==> quoted[k] == Quote(parts[k])
    ensures Join(quoted, " ") == JoinQuoted(parts)
  {
    if |parts| > 1 { JoinOfQuoted(parts[1..], quoted[1..]); }
  }

  // ---- commands joined by && ----

  /** The first `&&` from position `i` on that stands unquoted: what comes before it is read to its
      end. */
  function FindAnd(s: string, i: nat): (r: Option<nat>)
    requires i <= |s|
    ensures r.Some? ==> i <= r.value && r.value + 2 <= |s| && Lex(s[..r.value]).Some?
    decreases |s| - i
  {
    if i + 2 > |s| then None
    else if s[i..i + 2] == "&&" && Lex(s[..i]).Some? then Some(i)
    else FindAnd(s, i + 1)
  }

  /** The commands of an AND list, each as its words. */
  function AndList(s: string): Option<seq<seq<string>>>
    decreases |s|
  {
    match FindAnd(s, 0)
    case None => if Lex(s).Some? then Some([Lex(s).value]) else None
    case Some(i) => Cons(Lex(s[..i]).value, AndList(s[i + 2..]))
  }

  /** Words alone never hold an unquoted '&'. */
  lemma {:induction false} StopsAtAnd(s: string, rest: string, cur: Option<string>, mode: Mode)
    requires Words(s, cur, mode).Some?
    ensures Words(s + "&" + rest, cur, mode) == None
    decreases |s|
  {
    var t := s + "&" + rest;
    if s == [] {
      assert t[0] == '&';
    } else if |s| > 1 && s[0] == '\\' && mode != Single && (mode == Plain || s[1] in "$`\"\\" || s[1] == '\n') {
      assert t[2..] == s[2..] + "&" + rest && t[0] == s[0] && t[1] == s[1];
      var kept := if mode == Plain then cur else Some(SoFar(cur));
      StopsAtAnd(s[2..], rest, if s[1] == '\n' then kept else Some(SoFar(cur) + [s[1]]), mode);
    } else {
      assert t[1..] == s[1..] + "&" + rest && t[0] == s[0] && (|s| > 1 ==> t[1] == s[1]);
      if mode == Plain && Blank(s[0]) {
        StopsAtAnd(s[1..], rest, None, Plain);
      } else if (mode != Double && s[0] == '\'') || (mode != Single && s[0] == '"') {
        var next := if mode != Plain then Plain else if s[0] == '"' then Double else Single;
        StopsAtAnd(s[1..], rest, Some(SoFar(cur)), next);
      } else {
        StopsAtAnd(s[1..], rest, Some(SoFar(cur) + [s[0]]), mode);
      }
    }
  }

  lemma NoAndInside(s: string, i: nat)
    requires Lex(s).Some? && i < |s| && s[i] == '&'
    ensures Lex(s[..i]).None?
  {
    assert s == s[..i] + "&" + s[i + 1..];
    if Lex(s[..i]).Some? { StopsAtAnd(s[..i], s[i + 1..], None, Plain); }
  }

  lemma {:induction false} FindAndAt(a: string, rest: string, i: nat)
    requires Lex(a).Some? && i <= |a|
    ensures FindAnd(a + "&&" + rest, i) == Some(|a|)
    decreases |a| - i
  {
    hide Lex;
    var s := a + "&&" + rest;
    if i == |a| {
      assert s[i..i + 2] == "&&" && s[..i] == a;
    } else {
      if s[i..i + 2] == "&&" {
        assert s[i] == s[i..i + 2][0] && a[i] == s[i] && s[..i] == a[..i];
        NoAndInside(a, i);
      }
      FindAndAt(a, rest, i + 1);
    }
  }

  lemma {:induction false} FindNoAnd(s: string, i: nat)
    requires Lex(s).Some? && i <= |s|
    ensures FindAnd(s, i) == None
    decreases |s| - i
  {
    hide Lex;
    if i + 2 <= |s| {
      if s[i..i + 2] == "&&" {
        assert s[i] == s[i..i + 2][0];
        NoAndInside(s, i);
      }
      FindNoAnd(s, i + 1);
    }
  }

  /** A text read as words is one command; and a command, `&&` and anything is that command before
      whatever comes after. */
  lemma AndListOf(a: string, rest: string)
    requires Lex(a).Some?
    ensures AndList(a) == Some([Lex(a).value])
    ensures AndList(a + "&&" + rest) == Cons(Lex(a).value, AndList(rest))
  {
    hide Lex;
    FindNoAnd(a, 0);
    FindAndAt(a, rest, 0);
    var s := a + "&&" + rest;
    assert s[..|a|] == a && s[|a| + 2..] == rest;
  }

  lemma {:induction false} FindAndBlank(s: string, i: nat)
    requires i <= |s|
    ensures FindAnd(" " + s, i + 1) == match FindAnd(s, i) case None => None case Some(k) => Some(k + 1)
    decreases |s| - i
  {
    if i + 2 <= |s| {
      var t := " " + s;
      assert t[i + 1..i + 3] == s[i..i + 2] && t[..i + 1] == " " + s[..i];
      BlankFirst(s[..i]);
      hide Lex;
      FindAndBlank(s, i + 1);
    }
  }

  lemma BlankFirst(s: string)
    ensures Lex(" " + s) == Lex(s)
  {
    assert (" " + s)[1..] == s;
  }

  lemma FindAndPastBlank(s: string)
    ensures FindAnd(" " + s, 0) == match FindAnd(s, 0) case None => None case Some(k) => Some(k + 1)
  {
    hide Lex;
    var t := " " + s;
    FindAndBlank(s, 0);
    assert |t| >= 2 ==> t[0..2][0] == ' ';
  }

  lemma AndListBlank(s: string)
    ensures AndList(" " + s) == AndList(s)
  {
    hide Lex;
    hide FindAnd;
    var t := " " + s;
    BlankFirst(s);
    FindAndPastBlank(s);
    if FindAnd(s, 0).Some? {
      var k := FindAnd(s, 0).value;
      assert t[..k + 1] == " " + s[..k] && t[k + 3..] == s[k + 2..];
      BlankFirst(s[..k]);
    }
  }

  lemma CdLexes(dir: string)
    ensures Lex("cd" + " " + Quote(dir) + " ") == Some(["cd", dir])
  {
    hide Quote;
    var a := "cd" + " " + Quote(dir) + " ";
    CommandLexes("cd", dir, "");
    assert a + "" == a && Words("", None, Plain) == Some([]);
    assert ["cd"] + ([dir] + []) == ["cd", dir];
  }

  /** The text that runs a command in a directory is read as `cd` to that directory, whatever its
      name, and then as the command. */
  lemma CdThenReads(dir: string, command: string)
    ensures AndList("cd " + Quote(dir) + " && " + command) == Cons(["cd", dir], AndList(command))
  {
    hide Lex;
    hide Quote;
    hide AndList;
    var a := "cd" + " " + Quote(dir) + " ";
    CdLexes(dir);
    AndListOf(a, " " + command);
    AndListBlank(command);
    assert "cd " + Quote(dir) + " && " + command == a + "&&" + (" " + command);
  }

  // ---- exec-form RUN: expansion runs after quoting ----

  function DollarsIn(words: seq<string>): nat {
    if words == [] then 0 else Dollars(words[0]) + DollarsIn(words[1..])
  }

  /** Reading words neither invents nor drops a '$'. */
  lemma {:induction false} WordsKeepDollars(s: string, cur: Option<string>, mode: Mode)
    requires mode != Plain ==> cur.Some?
    requires Words(s, cur, mode).Some?
    ensures DollarsIn(Words(s, cur, mode).value) == Dollars(SoFar(cur)) + Dollars(s)
    decreases |s|
  {
    hide Special;
    if s == [] {
    } else if |s| > 1 && s[0] == '\\' && mode != Single &&
              (mode == Plain || s[1] in "$`\"\\" || s[1] == '\n') {
      assert s[1..][1..] == s[2..];
      if s[1] == '\n' {
        WordsKeepDollars(s[2..], cur, mode);
      } else {
        WordsKeepDollars(s[2..], Some(SoFar(cur) + [s[1]]), mode);
        DollarsConcat(SoFar(cur), [s[1]]);
      }
    } else if mode == Plain && Blank(s[0]) {
      WordsKeepDollars(s[1..], None, Plain);
    } else if (mode != Double && s[0] == '\'') || (mode != Single && s[0] == '"') {
      var next := if mode != Plain then Plain else if s[0] == '"' then Double else Single;
      WordsKeepDollars(s[1..], Some(SoFar(cur)), next);
    } else {
      WordsKeepDollars(s[1..], Some(SoFar(cur) + [s[0]]), mode);
      DollarsConcat(SoFar(cur), [s[0]]);
    }
  }

  /** An exec-form RUN reaches the shell as the list the Dockerfile gave, for every choice of
      variables, exactly when the quoted line holds no `$$`, `$NAME` or `${...}`. */
  lemma ExecFormSurvivesIffInert(parts: seq<string>)
    ensures (forall args, env :: Lex(Expand(JoinQuoted(parts), args, env)) == Some(parts))
            <==> Inert(Tokenize(JoinQuoted(parts)))
  {
    var line := JoinQuoted(parts);
    JoinRoundTrip(parts);
    if Inert(Tokenize(line)) {
      IdentityIffInert(line);
    } else {
      var out := Expand(line, map[], map[]);
      TokenizeReads(line);
      ActiveLosesDollar(Tokenize(line));
      WordsKeepDollars(line, None, Plain);
      if Lex(out) == Some(parts) {
        WordsKeepDollars(out, None, Plain);
        assert false;
      }
    }
  }

  lemma {:induction false} EscapeDollarFree(w: string)
    requires '$' !in w
    ensures '$' !in Escape(w)
  {
    if w != [] { EscapeDollarFree(w[1..]); }
  }

  lemma {:induction false} JoinDollarFree(parts: seq<string>)
    requires forall p :: p in parts ==> '$' !in p
    ensures '$' !in JoinQuoted(parts)
  {
    if parts != [] {
      EscapeDollarFree(parts[0]);
      JoinDollarFree(parts[1..]);
    }
  }

  /** In particular `$`-free words always survive. */
  lemma DollarFreeExecForm(parts: seq<string>, args: Vars, env: Vars)
    requires forall p :: p in parts ==> '$' !in p
    ensures Lex(Expand(JoinQuoted(parts), args, env)) == Some(parts)
  {
    JoinDollarFree(parts);
    DollarFree(JoinQuoted(parts), args, env);
    JoinRoundTrip(parts);
  }
}

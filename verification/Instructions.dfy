/** pkg/dockerfile: what the text of each instruction means, for every text of its form. */
module Instructions {
  import opened Text
  import opened Expansion
  import opened ShellWords
  import opened Dockerfile

  // ---- words and blanks ----

  const BLANKS := " \t\n\U{0B}\U{0C}\r"

  lemma BlankIff(c: char)
    ensures IsSpace(c) <==> c in BLANKS
  {
    if '\t' <= c <= '\r' { assert BLANKS[[1, 2, 3, 4, 5][c as int - 9]] == c; }
    if c == ' ' { assert BLANKS[0] == c; }
  }

  predicate Gap(g: string) { forall i :: 0 <= i < |g| ==> g[i] in BLANKS }

  predicate Word(w: string) { w != [] && forall i :: 0 <= i < |w| ==> w[i] !in BLANKS }

  /** Words with blanks between them. */
  function Laid(ws: seq<string>, gaps: seq<string>): string
    requires |ws| == |gaps| + 1
  {
    if |ws| == 1 then ws[0] else ws[0] + gaps[0] + Laid(ws[1..], gaps[1..])
  }

  predicate Layout(ws: seq<string>, gaps: seq<string>) {
    && |ws| == |gaps| + 1
    && (forall k :: 0 <= k < |ws| ==> Word(ws[k]))
    && (forall k :: 0 <= k < |gaps| ==> Gap(gaps[k]) && gaps[k] != [])
  }

  lemma {:induction false} FieldsSkip(g: string, rest: string)
    requires Gap(g)
    ensures FieldsFrom(g + rest, []) == FieldsFrom(rest, [])
  {
    if g == [] {
      assert g + rest == rest;
    } else {
      BlankIff(g[0]);
      assert (g + rest)[1..] == g[1..] + rest;
      FieldsSkip(g[1..], rest);
    }
  }

  lemma {:induction false} FieldsWord(w: string, word: string, rest: string)
    requires forall i :: 0 <= i < |w| ==> w[i] !in BLANKS
    requires word + w != [] && (rest == [] || rest[0] in BLANKS)
    ensures FieldsFrom(w + rest, word) == [word + w] + FieldsFrom(rest, [])
  {
    if w == [] {
      assert w + rest == rest && word + w == word;
      if rest != [] { BlankIff(rest[0]); }
    } else {
      BlankIff(w[0]);
      assert (w + rest)[1..] == w[1..] + rest && word + [w[0]] + w[1..] == word + w;
      FieldsWord(w[1..], word + [w[0]], rest);
    }
  }

  /** `strings.Fields` finds the words, whatever blanks are between and around them. */
  lemma {:induction false} FieldsRead(a: string, ws: seq<string>, gaps: seq<string>, b: string)
    requires Gap(a) && Gap(b) && Layout(ws, gaps)
    ensures Fields(a + Laid(ws, gaps) + b) == ws
    decreases |ws|
  {
    var text := Laid(ws, gaps);
    assert a + text + b == a + (text + b);
    FieldsSkip(a, text + b);
    if |ws| == 1 {
      FieldsWord(ws[0], [], b);
      FieldsSkip(b, []);
      assert b + [] == b && [] + ws[0] == ws[0];
    } else {
      var tail := gaps[0] + Laid(ws[1..], gaps[1..]) + b;
      assert text + b == ws[0] + tail && tail[0] == gaps[0][0];
      FieldsWord(ws[0], [], tail);
      FieldsRead(gaps[0], ws[1..], gaps[1..], b);
      assert [] + ws[0] == ws[0];
    }
  }

  lemma FieldsNone(g: string)
    requires Gap(g)
    ensures Fields(g) == []
  {
    FieldsSkip(g, []);
    assert g + [] == g;
  }

  /** And every text is blank or such a layout, so this is all there is to `strings.Fields`. */
  lemma {:induction false} EveryTextIsLaid(s: string) returns (a: string, ws: seq<string>, gaps: seq<string>, b: string)
    ensures Gap(a) && Gap(b)
    ensures if ws == [] then s == a else Layout(ws, gaps) && s == a + Laid(ws, gaps) + b
  {
    if s == [] {
      a, ws, gaps, b := [], [], [], [];
    } else {
      a, ws, gaps, b := EveryTextIsLaid(s[1..]);
      assert s == [s[0]] + s[1..];
      if s[0] in BLANKS {
        a := [s[0]] + a;
      } else if ws == [] {
        ws, gaps, a, b := [[s[0]]], [], [], a;
      } else if a == [] {
        var w := [s[0]] + ws[0];
        assert Laid([w] + ws[1..], gaps) == [s[0]] + Laid(ws, gaps);
        ws := [w] + ws[1..];
      } else {
        var ws', gaps' := [[s[0]]] + ws, [a] + gaps;
        assert ws'[1..] == ws && gaps'[1..] == gaps;
        ws, gaps, a := ws', gaps', [];
      }
    }
  }

  predicate Trimmed(s: string) { s != [] ==> s[0] !in BLANKS && s[|s| - 1] !in BLANKS }

  lemma {:induction false} TrimLeftRead(a: string, s: string)
    requires Gap(a) && (s != [] ==> s[0] !in BLANKS)
    ensures TrimLeft(a + s) == s
  {
    if a == [] {
      assert a + s == s;
      if s != [] { BlankIff(s[0]); }
    } else {
      BlankIff(a[0]);
      assert (a + s)[1..] == a[1..] + s;
      TrimLeftRead(a[1..], s);
    }
  }

  lemma {:induction false} TrimRightRead(s: string, b: string)
    requires Gap(b) && (s != [] ==> s[|s| - 1] !in BLANKS)
    ensures TrimRight(s + b) == s
  {
    if b == [] {
      assert s + b == s;
      if s != [] { BlankIff(s[|s| - 1]); }
    } else {
      BlankIff(b[|b| - 1]);
      assert (s + b)[..|s + b| - 1] == s + b[..|b| - 1];
      TrimRightRead(s, b[..|b| - 1]);
    }
  }

  /** `strings.TrimSpace` takes the blanks off both ends. */
  lemma TrimReads(a: string, s: string, b: string)
    requires Gap(a) && Gap(b) && Trimmed(s)
    ensures TrimSpace(a + s + b) == s
  {
    if s == [] {
      assert a + s + b == a + b + [];
      TrimLeftRead(a + b, []);
    } else {
      assert a + s + b == a + (s + b);
      TrimLeftRead(a, s + b);
      TrimRightRead(s, b);
    }
  }

  lemma {:induction false} LaidTrimmed(ws: seq<string>, gaps: seq<string>)
    requires Layout(ws, gaps)
    ensures Laid(ws, gaps) != [] && Trimmed(Laid(ws, gaps))
  {
    if |ws| > 1 {
      LaidTrimmed(ws[1..], gaps[1..]);
      var text, tail := Laid(ws, gaps), Laid(ws[1..], gaps[1..]);
      assert text[0] == ws[0][0] && text[|text| - 1] == tail[|tail| - 1];
    }
  }

  // ---- the instruction ----

  /** `strings.ToUpper`, byte by byte. */
  lemma UpperReads(s: string, i: nat, k: nat)
    requires i < |s| && k < 26
    ensures |Upper(s)| == |s|
    ensures s[i] == LOWER[k] ==> Upper(s)[i] == UPPER[k]
    ensures s[i] !in LOWER ==> Upper(s)[i] == s[i]
  {
    LowerIff(s[i]);
    LetterAt(k);
  }

  lemma LetterAt(k: nat)
    requires k < 26
    ensures LOWER[k] as int == 97 + k && UPPER[k] as int == 65 + k
  {
  }

  /** The instruction is what comes before the first blank or tab, in capitals; its operand the rest,
      without the blanks around it. */
  lemma {:induction false} GapFound(w: string, g: char, rest: string)
    requires ' ' !in w && '\t' !in w && (g == ' ' || g == '\t')
    ensures FirstGap(w + [g] + rest) == |w|
  {
    if w != [] {
      assert (w + [g] + rest)[1..] == w[1..] + [g] + rest;
      GapFound(w[1..], g, rest);
    }
  }

  lemma {:induction false} NoGapFound(w: string)
    requires ' ' !in w && '\t' !in w
    ensures FirstGap(w) < 0
  {
    if w != [] { NoGapFound(w[1..]); }
  }

  lemma SplitReads(w: string, g: char, a: string, s: string, b: string)
    requires ' ' !in w && '\t' !in w && (g == ' ' || g == '\t') && Gap(a) && Gap(b) && Trimmed(s)
    ensures Split(w + [g] + (a + s + b)) == (Upper(w), s)
    ensures Split(w) == (Upper(w), "")
  {
    var line := w + [g] + (a + s + b);
    GapFound(w, g, a + s + b);
    NoGapFound(w);
    TrimReads(a, s, b);
    assert line[..|w|] == w && line[|w| + 1..] == a + s + b;
  }

  /** The instructions there are, and those that need a FROM before them. */
  lemma InstructionNames(line: string)
    ensures IsKnown(line) <==>
            Instr(line) in {"FROM", "ARG", "RUN", "COPY", "ADD", "ENV", "WORKDIR", "CMD", "ENTRYPOINT", "EXPOSE",
                            "LABEL", "VOLUME", "USER", "HEALTHCHECK", "STOPSIGNAL", "SHELL", "ONBUILD", "MAINTAINER"}
    ensures NeedsStage(line) <==> Instr(line) in {"RUN", "COPY", "ADD", "CMD", "ENTRYPOINT"}
    ensures IsBuild(line) <==> Instr(line) in {"RUN", "COPY", "ADD"}
  {
    hide Split;
  }

  /** What is wrong with a line, if anything. ADD without a stage is reported as COPY. */
  lemma ErrorReads(f: Foreign, st: PState, line: string)
    ensures var e, i := LineError(f, st, line), Instr(line);
            && (e == Some(FromNeedsImage) <==> i == "FROM" && Fields(Operand(line)) == [])
            && (e == Some(BeforeFrom("COPY")) <==> i in {"COPY", "ADD"} && st.stages == [])
            && (i in {"RUN", "CMD", "ENTRYPOINT"} ==> e == if st.stages == [] then Some(BeforeFrom(i)) else None)
            && (i in {"COPY", "ADD"} && st.stages != [] ==>
                  var (srcs, dst) := CopyOperands(f, Operand(line));
                  e == if srcs == [] || dst == "" then Some(CopyNeedsOperands(i)) else None)
            && (i in {"ARG", "ENV", "WORKDIR"} || IsNoOp(line) ==> e == None)
            && (!IsKnown(line) ==> e == Some(UnknownInstruction(i)))
  {
    hide Split;
    hide Fields;
    hide CopyOperands;
  }

  // ---- COPY and ADD ----

  lemma {:induction false} FlagsDropped(flags: seq<string>, ws: seq<string>)
    requires (forall k :: 0 <= k < |flags| ==> "--" <= flags[k]) && (ws != [] ==> !("--" <= ws[0]))
    ensures DropFlags(flags + ws) == ws
  {
    if flags == [] {
      assert flags + ws == ws;
    } else {
      assert (flags + ws)[1..] == flags[1..] + ws;
      FlagsDropped(flags[1..], ws);
    }
  }

  /** Behind any flags, the last word is the destination and those before it are the sources. */
  lemma CopyReads(f: Foreign, flags: seq<string>, srcs: seq<string>, dst: string, gaps: seq<string>)
    requires (forall k :: 0 <= k < |flags| ==> "--" <= flags[k]) && srcs != [] && !("--" <= srcs[0])
    requires Layout(flags + (srcs + [dst]), gaps)
    ensures CopyOperands(f, Laid(flags + (srcs + [dst]), gaps)) == (srcs, dst)
  {
    var text := Laid(flags + (srcs + [dst]), gaps);
    FieldsRead([], flags + (srcs + [dst]), gaps, []);
    assert [] + text + [] == text;
    FlagsDropped(flags, srcs + [dst]);
  }

  /** With fewer than two words besides flags, a JSON list of at least two is read the same way, and
      anything else has no operands. */
  lemma CopyReadsJson(f: Foreign, flags: seq<string>, ws: seq<string>, rest: string)
    requires (forall k :: 0 <= k < |flags| ==> "--" <= flags[k]) && (ws != [] ==> !("--" <= ws[0])) && |ws| < 2
    requires Fields(rest) == flags + ws
    ensures forall srcs, dst :: srcs != [] && f.json(rest) == Some(srcs + [dst]) ==>
      CopyOperands(f, rest) == (srcs, dst)
    ensures f.json(rest).None? || |f.json(rest).value| < 2 ==> CopyOperands(f, rest) == ([], "")
  {
    FlagsDropped(flags, ws);
  }

  /** Where a file goes: the destination, below the working directory unless it is absolute. */
  lemma CopyGoesTo(f: Foreign, st: PState, dst: string)
    ensures var d := Expand(dst, st.args, st.env);
            CopyDest(f, st, dst) ==
              if st.workdir == "" || (d != "" && d[0] == '/') then d else f.joinPath(st.workdir, d)
  {
    hide Expand;
  }

  /** The step of a COPY or ADD line copies each word, expanded, to the last one, expanded. */
  lemma CopyMeans(f: Foreign, st: PState, w: string, g: char, a: string, b: string,
                  flags: seq<string>, srcs: seq<string>, dst: string, gaps: seq<string>)
    requires ' ' !in w && '\t' !in w && (g == ' ' || g == '\t') && Upper(w) in {"COPY", "ADD"} && Gap(a) && Gap(b)
    requires (forall k :: 0 <= k < |flags| ==> "--" <= flags[k]) && srcs != [] && !("--" <= srcs[0])
    requires Layout(flags + (srcs + [dst]), gaps)
    ensures var line := w + [g] + (a + Laid(flags + (srcs + [dst]), gaps) + b);
            var job := JobFor(f, st, line);
            var d := Expand(dst, st.args, st.env);
            var to := if st.workdir == "" || (d != "" && d[0] == '/') then d else f.joinPath(st.workdir, d);
            && IsBuild(line) && job.run == "" && |job.copy| == |srcs|
            && forall i :: 0 <= i < |srcs| ==> job.copy[i] == CopySpec(Expand(srcs[i], st.args, st.env), to)
  {
    hide Expand;
    var text := Laid(flags + (srcs + [dst]), gaps);
    LaidTrimmed(flags + (srcs + [dst]), gaps);
    SplitReads(w, g, a, text, b);
    hide Split;
    hide CopyOperands;
    hide CopyDest;
    CopyReads(f, flags, srcs, dst, gaps);
    CopyGoesTo(f, st, dst);
  }

  // ---- ENV ----

  lemma CutReads(k: string, v: string)
    requires '=' !in k
    ensures Cut(k + "=" + v, '=') == (k, v) && Cut(k, '=') == (k, "")
  {
    var s := k + "=" + v;
    IndexFirst(k, '=', v);
    assert k + ['='] + v == s;
    assert s[..|k|] == k && s[|k| + 1..] == v;
  }

  /** Word `i` assigns `vals[i]` to `keys[i]`; a word without '=' assigns nothing to itself. */
  predicate Assigns(ws: seq<string>, keys: seq<string>, vals: seq<string>) {
    && |ws| == |keys| == |vals|
    && forall i :: 0 <= i < |ws| ==>
         '=' !in keys[i] && (ws[i] == keys[i] + "=" + vals[i] || (ws[i] == keys[i] && vals[i] == ""))
  }

  /** The last assignment to each key, and no others. */
  ghost predicate LastWins(keys: seq<string>, vals: seq<string>, pairs: Vars) {
    && |keys| == |vals| && pairs.Keys == Elems(keys)
    && forall i :: 0 <= i < |keys| && (forall j :: i < j < |keys| ==> keys[j] != keys[i]) ==>
         keys[i] in pairs && pairs[keys[i]] == vals[i]
  }

  lemma LastWinsSnoc(keys: seq<string>, vals: seq<string>, pairs: Vars, k: string, v: string)
    requires LastWins(keys, vals, pairs)
    ensures LastWins(keys + [k], vals + [v], pairs[k := v])
  {
    var keys', vals' := keys + [k], vals + [v];
    assert Elems(keys') == Elems(keys) + {k};
    forall i | 0 <= i < |keys'| && (forall j :: i < j < |keys'| ==> keys'[j] != keys'[i])
      ensures keys'[i] in pairs[k := v] && pairs[k := v][keys'[i]] == vals'[i]
    {
      if i < |keys| {
        assert keys'[|keys|] != keys'[i];
        assert forall j :: i < j < |keys| ==> keys'[j] == keys[j];
      }
    }
  }

  lemma AssignsLast(ws: seq<string>, keys: seq<string>, vals: seq<string>)
    requires Assigns(ws, keys, vals) && ws != []
    ensures var n := |ws| - 1; Assigns(ws[..n], keys[..n], vals[..n]) && Cut(ws[n], '=') == (keys[n], vals[n])
  {
    hide Cut;
    var n := |ws| - 1;
    CutReads(keys[n], vals[n]);
  }

  lemma EnvPairsSnoc(ws: seq<string>, k: string, v: string)
    requires ws != [] && Cut(ws[|ws| - 1], '=') == (k, v)
    ensures EnvPairs(ws) == EnvPairs(ws[..|ws| - 1])[k := v]
  {
    hide Cut;
  }

  lemma FrontAndLast<T>(s: seq<T>)
    requires s != []
    ensures s == s[..|s| - 1] + [s[|s| - 1]]
  {
  }

  lemma NoAssignments()
    ensures LastWins([], [], EnvPairs([]))
  {
  }

  lemma {:induction false} EnvPairsRead(ws: seq<string>, keys: seq<string>, vals: seq<string>)
    requires Assigns(ws, keys, vals)
    ensures LastWins(keys, vals, EnvPairs(ws))
  {
    assert |ws| == |keys| == |vals|;
    hide *;
    if ws == [] {
      NoAssignments();
    } else {
      AssignsLast(ws, keys, vals);
      var n := |ws| - 1;
      EnvPairsRead(ws[..n], keys[..n], vals[..n]);
      EnvPairsSnoc(ws, keys[n], vals[n]);
      LastWinsSnoc(keys[..n], vals[..n], EnvPairs(ws[..n]), keys[n], vals[n]);
      FrontAndLast(keys);
      FrontAndLast(vals);
    }
  }

  lemma {:induction false} LaidHolds(ws: seq<string>, gaps: seq<string>, c: char)
    requires Layout(ws, gaps) && c !in BLANKS
    ensures c in Laid(ws, gaps) <==> exists k :: 0 <= k < |ws| && c in ws[k]
  {
    if |ws| == 1 {
      assert c in ws[0] ==> 0 <= 0 < |ws|;
    } else {
      LaidHolds(ws[1..], gaps[1..], c);
      assert c !in gaps[0];
      assert forall k :: 0 <= k < |ws| - 1 ==> ws[1..][k] == ws[k + 1];
      if k :| 0 <= k < |ws| && c in ws[k] {
        if k > 0 { assert c in ws[1..][k - 1]; }
      }
    }
  }

  /** `K=V K2=V2 ...`: every word assigns, the last assignment to a key wins. */
  lemma EnvReads(ws: seq<string>, gaps: seq<string>, keys: seq<string>, vals: seq<string>)
    requires Layout(ws, gaps) && Assigns(ws, keys, vals) && exists k :: 0 <= k < |ws| && '=' in ws[k]
    ensures LastWins(keys, vals, EnvOperands(Laid(ws, gaps)))
  {
    var text := Laid(ws, gaps);
    LaidHolds(ws, gaps, '=');
    FieldsRead([], ws, gaps, []);
    assert [] + text + [] == text;
    EnvPairsRead(ws, keys, vals);
  }

  /** `K V ...`, without any '=': the first word is set to the others, one blank apart. */
  lemma EnvReadsLegacy(ws: seq<string>, gaps: seq<string>)
    requires Layout(ws, gaps) && forall k :: 0 <= k < |ws| ==> '=' !in ws[k]
    ensures EnvOperands(Laid(ws, gaps)) == if |ws| >= 2 then map[ws[0] := Join(ws[1..], " ")] else map[]
  {
    var text := Laid(ws, gaps);
    LaidHolds(ws, gaps, '=');
    FieldsRead([], ws, gaps, []);
    assert [] + text + [] == text;
  }

  lemma {:induction false} EnvAfterConstants(keys: seq<string>, pairs: Vars, args: Vars, env: Vars)
    requires forall k :: k in keys ==> k in pairs && '$' !in pairs[k]
    ensures EnvAfter(keys, pairs, args, env) == env + map k | k in keys :: pairs[k]
  {
    if keys != [] {
      var front, k := keys[..|keys| - 1], keys[|keys| - 1];
      assert keys == front + [k];
      EnvAfterConstants(front, pairs, args, env);
      DollarFree(pairs[k], args, EnvAfter(front, pairs, args, env));
      hide Expand;
    }
  }

  /** An ENV line whose values hold no '$' sets exactly these, in whatever order it is applied. */
  lemma EnvConstants(pairs: Vars, args: Vars, env: Vars, env': Vars)
    requires EnvStep(pairs, args, env, env') && forall k :: k in pairs ==> '$' !in pairs[k]
    ensures env' == env + pairs
  {
    hide EnvAfter;
    var keys: seq<string> :| NoDups(keys) && Elems(keys) == pairs.Keys && env' == EnvAfter(keys, pairs, args, env);
    assert forall k :: k in keys <==> k in pairs by { assert forall k :: k in keys <==> k in Elems(keys); }
    EnvAfterConstants(keys, pairs, args, env);
    assert (map k | k in keys :: pairs[k]) == pairs;
  }

  /** An ENV line with one assignment expands it in the old environment. */
  lemma EnvOne(k: string, v: string, args: Vars, env: Vars, env': Vars)
    requires EnvStep(map[k := v], args, env, env')
    ensures env' == env[k := Expand(v, args, env)]
  {
    hide Expand;
    var pairs := map[k := v];
    var keys: seq<string> :| NoDups(keys) && Elems(keys) == pairs.Keys && env' == EnvAfter(keys, pairs, args, env);
    NoDupsCount(keys);
    assert |pairs.Keys| == 1 && |keys| == 1 && keys[0] in Elems(keys);
    assert keys == [k] && keys[..0] == [];
    assert EnvAfter([k], pairs, args, env) == env[k := Expand(v, args, env)];
  }

  /** With two, the order shows: the second may see the first or not. */
  lemma EnvOrderShows(a: string, b: string, v: string, x: string, args: Vars, env: Vars)
    requires a != b && '$' !in v
    ensures EnvStep(map[a := v, b := x], args, env, env[a := v][b := Expand(x, args, env[a := v])])
    ensures EnvStep(map[a := v, b := x], args, env, env[b := Expand(x, args, env)][a := v])
  {
    hide Expand;
    var pairs := map[a := v, b := x];
    DollarFree(v, args, env);
    DollarFree(v, args, env[b := Expand(x, args, env)]);
    assert [a, b][..1] == [a] && [a][..0] == [] && Elems([a, b]) == pairs.Keys;
    assert EnvAfter([a], pairs, args, env) == env[a := v];
    assert EnvAfter([a, b], pairs, args, env) == env[a := v][b := Expand(x, args, env[a := v])];
    assert [b, a][..1] == [b] && [b][..0] == [] && Elems([b, a]) == pairs.Keys;
    assert EnvAfter([b], pairs, args, env) == env[b := Expand(x, args, env)];
    assert EnvAfter([b, a], pairs, args, env) == env[b := Expand(x, args, env)][a := v];
  }

  // ---- ARG, CMD and ENTRYPOINT ----

  /** `NAME=default` sets the argument unless it is set already; without a default nothing happens. */
  lemma ArgReads(args: Vars, n: string, b: string, c: string, d: string, e: string)
    requires '=' !in n && '=' !in b && Trimmed(n) && Trimmed(d) && Gap(b) && Gap(c) && Gap(e)
    ensures ArgsAfter(args, n + b + "=" + (c + d + e)) ==
            if n in args || c + d + e == "" then args else args[n := d]
    ensures ArgsAfter(args, n + b) == args
  {
    assert Gap([]);
    hide Cut;
    hide TrimSpace;
    hide Trimmed;
    hide Gap;
    CutReads(n + b, c + d + e);
    TrimReads([], n, b);
    TrimReads(c, d, e);
    assert [] + n + b == n + b;
  }

  /** A JSON list is expanded part by part; otherwise the text is expanded and split into words. */
  lemma EntryReads(f: Foreign, st: PState, rest: string, parts: seq<string>)
    requires rest != "" && rest[0] == '[' && f.json(rest) == Some(parts)
    ensures var entry := EntryFor(f, st, rest);
            |entry| == |parts| && forall i :: 0 <= i < |parts| ==> entry[i] == Expand(parts[i], st.args, st.env)
  {
    hide Expand;
  }

  lemma EntryReadsWords(f: Foreign, st: PState, rest: string, ws: seq<string>, a: string, gaps: seq<string>, b: string)
    requires (rest == "" || rest[0] != '[') || f.json(rest) == None
    requires Gap(a) && Gap(b) && Layout(ws, gaps) && Expand(rest, st.args, st.env) == a + Laid(ws, gaps) + b
    ensures EntryFor(f, st, rest) == ws
  {
    hide Expand;
    FieldsRead(a, ws, gaps, b);
  }

  // ---- one line, from its text to the next state ----

  /** The line reads as instruction `name` with operand `s`, in any case and with any blanks. */
  ghost predicate Reads(line: string, name: string, s: string) {
    exists w, g, a, b ::
      && ' ' !in w && '\t' !in w && (g == ' ' || g == '\t') && Upper(w) == name && Gap(a) && Gap(b) && Trimmed(s)
      && line == w + [g] + (a + s + b)
  }

  lemma ReadsSplit(line: string, name: string, s: string)
    requires Reads(line, name, s)
    ensures Instr(line) == name && Operand(line) == s
  {
    hide Split;
    hide Upper;
    var w, g, a, b :|
      && ' ' !in w && '\t' !in w && (g == ' ' || g == '\t') && Upper(w) == name && Gap(a) && Gap(b) && Trimmed(s)
      && line == w + [g] + (a + s + b);
    SplitReads(w, g, a, s, b);
  }

  /** FROM opens a stage on its first word and starts afresh, except for the arguments. */
  lemma FromMeans(f: Foreign, st: PState, line: string, ws: seq<string>, gaps: seq<string>, st': PState)
    requires Layout(ws, gaps) && Reads(line, "FROM", Laid(ws, gaps)) && LineStep(f, st, line, st')
    ensures st' == PState(st.stages + [Stage(Expand(ws[0], st.args, st.env), [], [])], st.args, map[], "")
  {
    hide Expand;
    ReadsSplit(line, "FROM", Laid(ws, gaps));
    FieldsRead([], ws, gaps, []);
    assert [] + Laid(ws, gaps) + [] == Laid(ws, gaps);
    hide Split;
  }

  /** RUN and COPY add a step at the end of the current stage and change nothing else. */
  lemma BuildMeans(f: Foreign, st: PState, line: string, st': PState)
    requires Instr(line) in {"RUN", "COPY", "ADD"} && LineStep(f, st, line, st')
    ensures st.stages != [] && st'.args == st.args && st'.env == st.env && st'.workdir == st.workdir
    ensures var n := |st.stages| - 1;
            && |st'.stages| == |st.stages| && st'.stages[..n] == st.stages[..n]
            && st'.stages[n].base == st.stages[n].base && st'.stages[n].entry == st.stages[n].entry
            && st'.stages[n].steps == st.stages[n].steps + [JobFor(f, st, line)]
  {
    hide Split;
    hide JobFor;
    hide Expand;
  }

  lemma RunMeans(f: Foreign, st: PState, line: string)
    requires Instr(line) == "RUN"
    ensures JobFor(f, st, line).copy == [] && RunReads(f, st, Operand(line), JobFor(f, st, line).run)
  {
    hide Split;
    hide RunReads;
    hide Expand;
    RunTextReads(f, st, Operand(line));
  }

  /** WORKDIR sets the directory to its operand, expanded. */
  lemma WorkdirMeans(f: Foreign, st: PState, line: string, dir: string, st': PState)
    requires Reads(line, "WORKDIR", dir) && LineStep(f, st, line, st')
    ensures st' == st.(workdir := Expand(dir, st.args, st.env))
  {
    hide Expand;
    ReadsSplit(line, "WORKDIR", dir);
    TrimReads([], dir, []);
    assert [] + dir + [] == dir;
    hide Split;
    hide TrimSpace;
  }

  /** ENV changes the environment as its operand says, ARG the arguments. */
  lemma EnvMeans(f: Foreign, st: PState, line: string, s: string, st': PState)
    requires Reads(line, "ENV", s) && LineStep(f, st, line, st')
    ensures EnvStep(EnvOperands(s), st.args, st.env, st'.env) && st' == st.(env := st'.env)
  {
    hide Expand;
    ReadsSplit(line, "ENV", s);
    hide Split;
    hide EnvOperands;
    hide EnvStep;
  }

  lemma ArgMeans(f: Foreign, st: PState, line: string, n: string, b: string, c: string, d: string, st': PState)
    requires '=' !in n && Trimmed(n) && Trimmed(d) && d != "" && Gap(b) && Gap(c) && LineStep(f, st, line, st')
    requires Reads(line, "ARG", n + b + "=" + (c + d))
    ensures st' == st.(args := if n in st.args then st.args else st.args[n := d])
  {
    hide Expand;
    ReadsSplit(line, "ARG", n + b + "=" + (c + d));
    assert '=' !in b;
    assert c + d + [] == c + d;
    ArgReads(st.args, n, b, c, d, []);
    hide Split;
    hide ArgsAfter;
  }

  /** CMD and ENTRYPOINT set the command of the current stage, each over the other. */
  lemma EntryMeans(f: Foreign, st: PState, line: string, s: string, st': PState)
    requires (Reads(line, "CMD", s) || Reads(line, "ENTRYPOINT", s)) && LineStep(f, st, line, st')
    ensures st.stages != [] && st'.args == st.args && st'.env == st.env && st'.workdir == st.workdir
    ensures var n := |st.stages| - 1;
            && |st'.stages| == |st.stages| && st'.stages[..n] == st.stages[..n]
            && st'.stages[n].base == st.stages[n].base && st'.stages[n].steps == st.stages[n].steps
            && st'.stages[n].entry == EntryFor(f, st, s)
  {
    hide Expand;
    if Reads(line, "CMD", s) { ReadsSplit(line, "CMD", s); } else { ReadsSplit(line, "ENTRYPOINT", s); }
    TrimReads([], s, []);
    assert [] + s + [] == s;
    hide Split;
    hide TrimSpace;
    hide EntryFor;
  }

  /** The other instructions have no effect. */
  lemma NoOpMeans(f: Foreign, st: PState, line: string, st': PState)
    requires LineStep(f, st, line, st')
    requires Instr(line) in {"EXPOSE", "LABEL", "VOLUME", "USER", "HEALTHCHECK", "STOPSIGNAL", "SHELL", "ONBUILD",
                             "MAINTAINER"}
    ensures st' == st
  {
    hide Split;
    hide Expand;
  }

  // ---- from a whole file to its plan ----

  function Last(st: PState): Stage
    requires st.stages != []
  {
    st.stages[|st.stages| - 1]
  }

  predicate SetsEntry(line: string) { Instr(line) == "CMD" || Instr(line) == "ENTRYPOINT" }

  /** What one line does to the base image and the command of the current stage. */
  lemma StageStep(f: Foreign, st: PState, line: string, st': PState)
    requires LineStep(f, st, line, st')
    ensures IsFrom(line) ==>
      && Fields(Operand(line)) != [] && st'.stages != [] && Last(st').entry == []
      && Last(st').base == Expand(Fields(Operand(line))[0], st.args, st.env)
    ensures !IsFrom(line) && st.stages != [] ==> st'.stages != [] && Last(st').base == Last(st).base
    ensures !IsFrom(line) && st.stages != [] && !SetsEntry(line) ==> Last(st').entry == Last(st).entry
    ensures SetsEntry(line) ==> st.stages != [] && Last(st').entry == EntryFor(f, st, TrimSpace(Operand(line)))
  {
    hide Expand;
    hide Split;
    hide JobFor;
    hide EnvStep;
    hide EntryFor;
    hide Fields;
    hide TrimSpace;
  }

  lemma TraceStep(f: Foreign, buildArgs: Vars, lines: seq<string>, trace: seq<PState>, k: nat)
    requires Trace(f, buildArgs, lines, trace, k) && k > 0
    ensures LineStep(f, trace[k - 1], lines[k - 1], trace[k])
  {
    hide LineStep;
    assert lines[k - 1] == lines[k - 1];
  }

  /** The base image is the first word of the last FROM, expanded in the state before that line. */
  lemma {:induction false} BaseFollowsSource(f: Foreign, buildArgs: Vars, lines: seq<string>, trace: seq<PState>,
                                             k: nat)
    returns (i: nat)
    requires Trace(f, buildArgs, lines, trace, k) && FromAmong(lines, k)
    ensures i < k && IsFrom(lines[i]) && (forall j :: i < j < k ==> !IsFrom(lines[j]))
    ensures Fields(Operand(lines[i])) != [] && trace[k].stages != []
    ensures Last(trace[k]).base == Expand(Fields(Operand(lines[i]))[0], trace[i].args, trace[i].env)
  {
    hide Expand;
    hide IsFrom;
    hide Fields;
    hide Operand;
    hide LineStep;
    TraceStep(f, buildArgs, lines, trace, k);
    StageStep(f, trace[k - 1], lines[k - 1], trace[k]);
    if IsFrom(lines[k - 1]) {
      i := k - 1;
    } else {
      TracePrefix(f, buildArgs, lines, trace, k);
      i := BaseFollowsSource(f, buildArgs, lines, trace[..k], k - 1);
    }
  }

  /** The command is that of the last CMD or ENTRYPOINT since the last FROM, read in the state before
      that line; without one it is empty. */
  lemma {:induction false} EntryFollowsSource(f: Foreign, buildArgs: Vars, lines: seq<string>, trace: seq<PState>,
                                              k: nat)
    returns (i: nat)
    requires Trace(f, buildArgs, lines, trace, k) && FromAmong(lines, k)
    ensures i < k && (IsFrom(lines[i]) || SetsEntry(lines[i])) && trace[k].stages != []
    ensures forall j :: i < j < k ==> !IsFrom(lines[j]) && !SetsEntry(lines[j])
    ensures Last(trace[k]).entry ==
            if IsFrom(lines[i]) then [] else EntryFor(f, trace[i], TrimSpace(Operand(lines[i])))
  {
    hide IsFrom;
    hide SetsEntry;
    hide EntryFor;
    hide Operand;
    hide LineStep;
    TraceStep(f, buildArgs, lines, trace, k);
    StageStep(f, trace[k - 1], lines[k - 1], trace[k]);
    if IsFrom(lines[k - 1]) {
      i := k - 1;
    } else {
      TracePrefix(f, buildArgs, lines, trace, k);
      if SetsEntry(lines[k - 1]) {
        i := k - 1;
      } else {
        i := EntryFollowsSource(f, buildArgs, lines, trace[..k], k - 1);
      }
    }
  }

  /** How a line of a file laid out as words reads. */
  lemma LineReads(name: string, ws: seq<string>, gaps: seq<string>)
    requires ' ' !in name && '\t' !in name && Upper(name) == name && Layout(ws, gaps)
    ensures Reads(name + [' '] + Laid(ws, gaps), name, Laid(ws, gaps))
  {
    hide Laid;
    hide Upper;
    LaidTrimmed(ws, gaps);
    var text := Laid(ws, gaps);
    assert [] + text + [] == text;
    assert name + [' '] + text == name + [' '] + ([] + text + []) && Gap([]);
  }

  lemma CapitalNames()
    ensures Upper("FROM") == "FROM" && Upper("COPY") == "COPY"
  {
  }

  /** The copies a COPY line asks for. */
  ghost predicate Copies(job: Job, srcs: seq<string>, dst: string, args: Vars) {
    && job.run == "" && |job.copy| == |srcs|
    && forall i :: 0 <= i < |srcs| ==> job.copy[i] == CopySpec(Expand(srcs[i], args, map[]), Expand(dst, args, map[]))
  }

  lemma TwoLinesAccepted(f: Foreign, from: string, copy: string, image: string, srcs: seq<string>, dst: string)
    requires Instr(from) == "FROM" && Fields(Operand(from)) == [image]
    requires Instr(copy) == "COPY" && CopyOperands(f, Operand(copy)) == (srcs, dst) && srcs != [] && dst != ""
    ensures Accepts(f, [from, copy]) && BuildIndices([from, copy], 2) == [1]
  {
    hide Split;
    hide Fields;
    hide CopyOperands;
    var lines := [from, copy];
    assert lines[0] == from && lines[1] == copy;
    assert FromAmong(lines, 1) && FromAmong(lines, 2);
    assert LineFine(f, lines, 0) && LineFine(f, lines, 1);
    assert BuildIndices(lines, 1) == [];
  }

  lemma FromCopyAccepted(f: Foreign, from: string, copy: string, image: string, srcs: seq<string>, dst: string,
                         gaps: seq<string>)
    requires Word(image) && srcs != [] && Layout(srcs + [dst], gaps) && !("--" <= srcs[0])
    requires from == "FROM" + [' '] + image && copy == "COPY" + [' '] + Laid(srcs + [dst], gaps)
    ensures Accepts(f, [from, copy]) && BuildIndices([from, copy], 2) == [1]
    ensures Reads(from, "FROM", Laid([image], [])) && Reads(copy, "COPY", Laid(srcs + [dst], gaps))
  {
    CapitalNames();
    assert Laid([image], []) == image && Layout([image], []);
    assert (srcs + [dst])[|srcs|] == dst && Word(dst);
    hide Upper;
    hide Reads;
    hide Split;
    hide Fields;
    hide CopyOperands;
    hide Laid;
    hide Accepts;
    hide BuildIndices;
    var ws := srcs + [dst];
    assert [] + ws == ws && [] + image + [] == image;
    LineReads("FROM", [image], []);
    LineReads("COPY", ws, gaps);
    ReadsSplit(from, "FROM", image);
    ReadsSplit(copy, "COPY", Laid(ws, gaps));
    FieldsRead([], [image], [], []);
    CopyReads(f, [], srcs, dst, gaps);
    TwoLinesAccepted(f, from, copy, image, srcs, dst);
  }

  lemma FromCopyJob(f: Foreign, from: string, copy: string, image: string, srcs: seq<string>, dst: string,
                    gaps: seq<string>, buildArgs: Vars, trace: seq<PState>)
    requires Word(image) && srcs != [] && Layout(srcs + [dst], gaps) && !("--" <= srcs[0])
    requires copy == "COPY" + [' '] + Laid(srcs + [dst], gaps)
    requires Reads(from, "FROM", Laid([image], [])) && Reads(copy, "COPY", Laid(srcs + [dst], gaps))
    requires Trace(f, buildArgs, [from, copy], trace, 2)
    ensures trace[2].stages != []
    ensures Last(trace[2]).base == Expand(image, buildArgs, map[]) && Last(trace[2]).entry == []
    ensures Copies(JobFor(f, trace[1], copy), srcs, dst, buildArgs)
  {
    hide Expand;
    hide Reads;
    hide LineStep;
    hide JobFor;
    var lines := [from, copy];
    assert LineStep(f, trace[0], lines[0], trace[1]) && LineStep(f, trace[1], lines[1], trace[2]);
    FromMeans(f, trace[0], from, [image], [], trace[1]);
    ReadsSplit(copy, "COPY", Laid(srcs + [dst], gaps));
    BuildMeans(f, trace[1], copy, trace[2]);
    CapitalNames();
    hide Upper;
    var text := Laid(srcs + [dst], gaps);
    assert [] + (srcs + [dst]) == srcs + [dst] && [] + text + [] == text;
    CopyMeans(f, trace[1], "COPY", ' ', [], [], [], srcs, dst, gaps);
  }

  /** A file of a FROM and a COPY line is planned as one step, on that image, which copies each source
      to the destination. */
  method PlanOneCopy(f: Foreign, image: string, srcs: seq<string>, dst: string, gaps: seq<string>, buildArgs: Vars)
    returns (r: Result<BuildGraph>, levels: Option<seq<seq<string>>>)
    requires Word(image) && srcs != [] && Layout(srcs + [dst], gaps) && !("--" <= srcs[0])
    ensures r.Ok? && levels == Some([["step-0"]])
    ensures r.value.baseImage == Expand(image, buildArgs, map[]) && r.value.entryCmd == []
    ensures r.value.steps.Keys == {"step-0"} && Copies(r.value.steps["step-0"].job, srcs, dst, buildArgs)
  {
    hide Expand;
    hide Reads;
    hide LineStep;
    hide Copies;
    hide JobFor;
    hide BuildIndices;
    hide Accepts;
    hide HasStep;
    var from, copy := "FROM" + [' '] + image, "COPY" + [' '] + Laid(srcs + [dst], gaps);
    FromCopyAccepted(f, from, copy, image, srcs, dst, gaps);
    ghost var trace;
    var lines := [from, copy];
    r, levels, trace := Plan(f, lines, buildArgs);
    ghost var ix := BuildIndices(lines, |lines|);
    assert |lines| == 2 && ix == [1] && ix[0] == 1;
    assert HasStep(r.value, 0, JobFor(f, trace[ix[0]], lines[ix[0]]));
    FromCopyJob(f, from, copy, image, srcs, dst, gaps, buildArgs, trace);
    OneStep(r.value, JobFor(f, trace[1], copy));
  }

  lemma OneStep(g: BuildGraph, job: Job)
    requires HasStep(g, 0, job) && |g.steps| == 1
    ensures Singletons(1) == [["step-0"]] && g.steps.Keys == {"step-0"} && g.steps["step-0"].job == job
  {
    assert StepName(0) == "step-0" && Singletons(0) == [];
    SubsetCard({"step-0"}, g.steps.Keys);
    assert |g.steps.Keys| == |g.steps|;
  }
}

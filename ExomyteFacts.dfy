/**
 * Properties of the Exomyte interpreter: what each statement form may
 * change, the case-insensitive classification of a line, the `if` protocol
 * on small scripts, printed output only ever growing, and `savevars`
 * followed by `loadvars` giving the file variables back.
 */
module ExomyteFacts {
  import opened Wrappers
  import opened Jvm
  import Text
  import StringUtils
  import opened ExmyFormat
  import ExmyVars
  import opened Exomyte

  // ------------------------------------------------------------ printed output only grows

  /** A statement never removes printed lines; at most its command's response is added. */
  lemma ExecuteAppends(h: Host, m: Machine, t: string)
    ensures m.out <= Execute(h, m, t).m.out
    ensures |Execute(h, m, t).m.out| <= |m.out| + 1
  {
    if Keyword(t, "--exch ") || Keyword(t, "--exvr ") {
    } else if Keyword(t, "let ") || Keyword(t, "var ") {
      DeclarationKeepsOut(h, m, t[4..], Keyword(t, "var "));
    } else if Keyword(t, "*") || Keyword(t, "$") {
      ReassignmentKeepsOut(h, m, t[1..], Keyword(t, "$"));
    } else if Whole(t, "savevars") || Whole(t, "loadvars") || Whole(t, "clearvars") {
    } else if t != [] {
      CommandLineAppends(h, m, t);
    }
  }

  lemma DeclarationKeepsOut(h: Host, m: Machine, info: string, toFile: bool)
    ensures Declaration(h, m, info, toFile).m.out == m.out
  {
  }

  lemma ReassignmentKeepsOut(h: Host, m: Machine, info: string, toFile: bool)
    ensures Reassignment(h, m, info, toFile).m.out == m.out
  {
  }

  /** A command prints its response when that is not empty, and nothing else. */
  lemma CommandLineAppends(h: Host, m: Machine, t: string)
    ensures var o := CommandLine(h, m, t);
      o.m.out == m.out || (o.error.None? && |o.m.out| == |m.out| + 1 && o.m.out[..|m.out|] == m.out && o.m.out[|m.out|] != [])
  {
  }

  lemma SettleAppends(h: Host, m: Machine, t: string)
    ensures m.out <= Settle(Execute(h, m, t)).out
  {
    ExecuteAppends(h, m, t);
  }

  /** Handling a line, however many lines its `if` blocks read, only appends to what was printed. */
  lemma {:induction false} HandleLineAppends(h: Host, src: seq<string>, m: Machine, cur: nat, input: string)
    requires cur <= |src|
    ensures m.out <= HandleLine(h, src, m, cur, input).m.out
    decreases |src| - cur, 4
  {
    match StringUtils.Trimmed(input)
    case Err(e) =>
    case Ok(t) => StatementAppends(h, src, m, cur, t);
  }

  lemma {:induction false} StatementAppends(h: Host, src: seq<string>, m: Machine, cur: nat, t: string)
    requires cur <= |src|
    ensures m.out <= Statement(h, src, m, cur, t).m.out
    decreases |src| - cur, 3
  {
    if Keyword(t, "if ") {
      IfStatementAppends(h, src, m, cur, t);
    } else {
      SettleAppends(h, m, t);
    }
  }

  lemma {:induction false} IfStatementAppends(h: Host, src: seq<string>, m: Machine, cur: nat, t: string)
    requires cur <= |src| && |t| >= 3
    ensures m.out <= IfStatement(h, src, m, cur, t).m.out
    decreases |src| - cur, 2
  {
    match Condition(h, m, t)
    case Err(e) =>
    case Ok(b) =>
      var blk := if b then ThenPart(h, src, m, cur) else ElsePart(h, src, m, cur);
      if b {
        ThenPartAppends(h, src, m, cur);
      } else {
        ElsePartAppends(h, src, m, cur);
      }
      if blk.error.None? && blk.cur < |src| {
        SettleAppends(h, blk.m, src[blk.cur]);
      }
  }

  lemma {:induction false} ThenPartAppends(h: Host, src: seq<string>, m: Machine, cur: nat)
    requires cur <= |src|
    ensures m.out <= ThenPart(h, src, m, cur).m.out
    decreases |src| - cur, 1
  {
    if cur < |src| {
      ThenBodyAppends(h, src, m, cur + 1, src[cur]);
    }
  }

  lemma {:induction false} ThenBodyAppends(h: Host, src: seq<string>, m: Machine, cur: nat, line: string)
    requires cur <= |src|
    ensures m.out <= ThenBody(h, src, m, cur, line).m.out
    decreases |src| - cur, 5
  {
    if !Stops(line) {
      var p := HandleLine(h, src, m, cur, line);
      HandleLineAppends(h, src, m, cur, line);
      if p.cur < |src| {
        ThenContinues(h, src, m, cur, line, p, src[p.cur]);
        var r := ThenBody(h, src, p.m, p.cur + 1, src[p.cur]);
        ThenBodyAppends(h, src, p.m, p.cur + 1, src[p.cur]);
        PrefixChain(m.out, p.m.out, r.m.out);
      }
    }
  }

  lemma {:induction false} ElsePartAppends(h: Host, src: seq<string>, m: Machine, cur: nat)
    requires cur <= |src|
    ensures m.out <= ElsePart(h, src, m, cur).m.out
    decreases |src| - cur, 1
  {
    if cur < |src| {
      ElseAfterAppends(h, src, m, SkipToStop(src, cur + 1, src[cur]));
    }
  }

  lemma {:induction false} ElseAfterAppends(h: Host, src: seq<string>, m: Machine, stop: Option<Stop>)
    requires stop.Some? ==> stop.value.cur <= |src|
    ensures m.out <= ElseAfter(h, src, m, stop).m.out
    decreases if stop.Some? then |src| - stop.value.cur + 1 else 0, 0
  {
    if stop.Some? && StartsElse(stop.value.line) && stop.value.cur < |src| {
      ElseBodyAppends(h, src, m, stop.value.cur + 1, src[stop.value.cur]);
    }
  }

  lemma {:induction false} ElseBodyAppends(h: Host, src: seq<string>, m: Machine, cur: nat, line: string)
    requires cur <= |src|
    ensures m.out <= ElseBody(h, src, m, cur, line).m.out
    decreases |src| - cur, 5
  {
    if !StartsEndif(line) {
      var p := HandleLine(h, src, m, cur, line);
      HandleLineAppends(h, src, m, cur, line);
      if p.cur < |src| {
        ElseContinues(h, src, m, cur, line, p, src[p.cur]);
        var r := ElseBody(h, src, p.m, p.cur + 1, src[p.cur]);
        ElseBodyAppends(h, src, p.m, p.cur + 1, src[p.cur]);
        PrefixChain(m.out, p.m.out, r.m.out);
      }
    }
  }

  lemma PrefixChain(a: seq<string>, b: seq<string>, c: seq<string>)
    requires a <= b && b <= c
    ensures a <= c
  {
  }

  /** Running a whole script only appends to what was printed. */
  lemma {:induction false} RunLinesAppends(h: Host, src: seq<string>, m: Machine, cur: nat)
    requires cur <= |src|
    ensures m.out <= RunLines(h, src, m, cur).out
    decreases |src| - cur
  {
    if cur < |src| {
      var p := HandleLine(h, src, m, cur + 1, src[cur]);
      HandleLineAppends(h, src, m, cur + 1, src[cur]);
      RunLinesAppends(h, src, p.m, p.cur);
    }
  }

  // ------------------------------------------------------------ what a statement changes

  /** Every character of `name` can be part of a variable name. */
  predicate NameChars(name: string)
  {
    forall i :: 0 <= i < |name| ==> name[i] != ' ' && name[i] != '='
  }

  predicate AllSpaces(gap: string)
  {
    forall i :: 0 <= i < |gap| ==> gap[i] == ' '
  }

  /** The variable name read from `name + rest` is `name` followed by the name at the head of `rest`. */
  lemma {:induction false} NameLengthAppend(name: string, rest: string)
    requires NameChars(name)
    ensures NameLength(name + rest) == |name| + NameLength(rest)
  {
    if name != [] {
      assert (name + rest)[1..] == name[1..] + rest;
      NameLengthAppend(name[1..], rest);
    } else {
      assert name + rest == rest;
    }
  }

  lemma {:induction false} SpacesAppend(gap: string, rest: string)
    requires AllSpaces(gap)
    ensures Spaces(gap + rest) == |gap| + Spaces(rest)
  {
    if gap != [] {
      assert (gap + rest)[1..] == gap[1..] + rest;
      SpacesAppend(gap[1..], rest);
    } else {
      assert gap + rest == rest;
    }
  }

  /** The variable map a `let` (`toFile` false) or `var` (`toFile` true) writes. */
  function Target(m: Machine, toFile: bool): Vars
  {
    if toFile then m.file else m.ram
  }

  /**
   * `let` and `var`: a failure leaves the machine as it was; a success
   * binds the name read from `info` in the one map the keyword names and
   * changes nothing else.
   */
  lemma DeclarationBinds(h: Host, m: Machine, info: string, toFile: bool)
    ensures var o := Declaration(h, m, info, toFile);
      var name := info[..NameLength(info)];
      (o.error.Some? ==> o.m == m)
      && (o.error.None? ==> name in Target(o.m, toFile) && o.m == Bind(m, toFile, name, Target(o.m, toFile)[name]))
  {
    var name := info[..NameLength(info)];
    var rest := SkipSpaces(info[NameLength(info)..]);
    if rest == [] {
      BindTarget(m, toFile, name, "");
    } else if rest[0] == '=' {
      match RightHandSide(h, m, SkipSpaces(rest[1..]))
      case Err(_) =>
      case Ok(v) => BindTarget(m, toFile, name, v);
    }
  }

  lemma BindTarget(m: Machine, toFile: bool, name: string, v: string)
    ensures name in Target(Bind(m, toFile, name, v), toFile)
    ensures Target(Bind(m, toFile, name, v), toFile)[name] == v
  {
  }

  /**
   * `*NAME = …` and `$NAME = …`: both demand that NAME be a RAM variable,
   * even though `$` writes the file variables; a failure leaves the machine
   * as it was and a success binds NAME in the one map the sigil names.
   */
  lemma ReassignmentBinds(h: Host, m: Machine, info: string, toFile: bool)
    ensures var o := Reassignment(h, m, info, toFile);
      var name := info[..NameLength(info)];
      (name !in m.ram ==> o == Outcome(m, Some(Raise(NullPointer, "Syntax error: \"" + name + "\" is not a variable"))))
      && (o.error.Some? ==> o.m == m)
      && (o.error.None? ==> name in m.ram && name in Target(o.m, toFile)
                            && o.m == Bind(m, toFile, name, Target(o.m, toFile)[name]))
  {
  }

  /** `let NAME` with nothing after the name but spaces binds the empty string. */
  lemma BareDeclaration(h: Host, m: Machine, name: string, gap: string, toFile: bool)
    requires NameChars(name) && AllSpaces(gap)
    ensures Declaration(h, m, name + gap, toFile) == Outcome(Bind(m, toFile, name, ""), None)
  {
    NameLengthAppend(name, gap);
    assert (name + gap)[..|name|] == name;
    assert (name + gap)[|name|..] == gap;
    SpacesAppend(gap, []);
    assert gap + [] == gap;
  }

  /** A quoted right-hand side, after any spaces, is the quoted text. */
  lemma QuotedValue(h: Host, m: Machine, gap': string, t: string)
    requires AllSpaces(gap')
    ensures RightHandSide(h, m, SkipSpaces(gap' + Quote(t))) == Ok(t)
  {
    var q := Quote(t);
    SpacesAppend(gap', q);
    assert q[0] == '"';
    assert SkipSpaces(gap' + q) == q;
    FormatQuoted(t, m.ram, m.file);
  }

  /** `NAME = RHS`: the declaration binds NAME to what RHS computes, or keeps the machine and reports the exception. */
  lemma Assignment(h: Host, m: Machine, name: string, gap: string, rhs: string, toFile: bool)
    requires NameChars(name) && AllSpaces(gap)
    ensures Declaration(h, m, name + gap + ['='] + rhs, toFile) ==
      match RightHandSide(h, m, SkipSpaces(rhs))
      case Err(e) => Outcome(m, Some(e))
      case Ok(v) => Outcome(Bind(m, toFile, name, v), None)
  {
    var tail := ['='] + rhs;
    var info := name + (gap + tail);
    assert name + gap + ['='] + rhs == info;
    NameLengthAppend(name, gap + tail);
    assert info[..NameLength(info)] == name;
    assert info[NameLength(info)..] == gap + tail;
    SpacesAppend(gap, tail);
    assert SkipSpaces(gap + tail) == tail;
    assert tail[1..] == rhs;
  }

  /** `NAME = "text"` binds NAME to the unescaped text. */
  lemma QuotedDeclaration(h: Host, m: Machine, name: string, gap: string, gap': string, t: string, toFile: bool)
    requires NameChars(name) && AllSpaces(gap) && AllSpaces(gap')
    ensures Declaration(h, m, name + gap + "=" + gap' + Quote(t), toFile) == Outcome(Bind(m, toFile, name, t), None)
  {
    var rhs := gap' + Quote(t);
    assert name + gap + "=" + gap' + Quote(t) == name + gap + ['='] + rhs;
    Assignment(h, m, name, gap, rhs, toFile);
    QuotedValue(h, m, gap', t);
  }

  // ------------------------------------------------------------ classifying a line

  /** `k` is the keyword `kw` typed in any letter case. */
  predicate Spelled(k: string, kw: string)
  {
    |k| == |kw| && forall i :: 0 <= i < |k| ==> Text.Lower(k[i]) == kw[i]
  }

  lemma {:induction false} KeywordOf(k: string, rest: string, kw: string)
    requires Spelled(k, kw)
    ensures Keyword(k + rest, kw)
  {
    if kw != [] {
      assert (k + rest)[1..] == k[1..] + rest;
      KeywordOf(k[1..], rest, kw[1..]);
    }
  }

  /** A line whose `i`-th character does not match the keyword's does not start with it. */
  lemma {:induction false} Mismatch(s: string, kw: string, i: nat)
    requires i < |kw| && (i < |s| ==> Text.Lower(s[i]) != kw[i])
    ensures !Keyword(s, kw)
  {
    if i > 0 && s != [] {
      Mismatch(s[1..], kw[1..], i - 1);
    }
  }

  /** `--exch PATH` sets the handler and, from its folder, the namespace. */
  lemma ExecuteExch(h: Host, m: Machine, k: string, path: string)
    requires Spelled(k, "--exch ")
    ensures Execute(h, m, k + path) ==
      match h.folderName(path)
      case None => Outcome(m.(handler := path), Some(Thrown(NullPointer, None)))
      case Some(d) => Outcome(m.(handler := path, namespace := d + "excm/"), None)
  {
    KeywordOf(k, path, "--exch ");
    assert (k + path)[7..] == path;
  }

  /** `--exvr PATH` sets the variables file. */
  lemma ExecuteExvr(h: Host, m: Machine, k: string, path: string)
    requires Spelled(k, "--exvr ")
    ensures Execute(h, m, k + path) == Outcome(m.(variables := path), None)
  {
    Mismatch(k + path, "--exch ", 4);
    KeywordOf(k, path, "--exvr ");
    assert (k + path)[7..] == path;
  }

  /** `let` declares a RAM variable, whatever the letter case of the keyword. */
  lemma ExecuteLet(h: Host, m: Machine, k: string, info: string)
    requires Spelled(k, "let ")
    ensures Execute(h, m, k + info) == Declaration(h, m, info, false)
  {
    assert (k + info)[0] == k[0];
    Mismatch(k + info, "--exch ", 0);
    Mismatch(k + info, "--exvr ", 0);
    KeywordOf(k, info, "let ");
    assert (k + info)[4..] == info;
  }

  /** `var` declares a file variable, whatever the letter case of the keyword. */
  lemma ExecuteVar(h: Host, m: Machine, k: string, info: string)
    requires Spelled(k, "var ")
    ensures Execute(h, m, k + info) == Declaration(h, m, info, true)
  {
    assert (k + info)[0] == k[0];
    Mismatch(k + info, "--exch ", 0);
    Mismatch(k + info, "--exvr ", 0);
    Mismatch(k + info, "let ", 0);
    KeywordOf(k, info, "var ");
    assert (k + info)[4..] == info;
  }

  /** `*` reassigns a RAM variable. */
  lemma ExecuteStar(h: Host, m: Machine, info: string)
    ensures Execute(h, m, "*" + info) == Reassignment(h, m, info, false)
  {
    assert ("*" + info)[0] == '*' && ("*" + info)[1..] == info;
    Mismatch("*" + info, "--exch ", 0);
    Mismatch("*" + info, "--exvr ", 0);
    Mismatch("*" + info, "let ", 0);
    Mismatch("*" + info, "var ", 0);
    KeywordOf("*", info, "*");
  }

  /** `$` reassigns a file variable. */
  lemma ExecuteDollar(h: Host, m: Machine, info: string)
    ensures Execute(h, m, "$" + info) == Reassignment(h, m, info, true)
  {
    assert ("$" + info)[0] == '$' && ("$" + info)[1..] == info;
    Mismatch("$" + info, "--exch ", 0);
    Mismatch("$" + info, "--exvr ", 0);
    Mismatch("$" + info, "let ", 0);
    Mismatch("$" + info, "var ", 0);
    Mismatch("$" + info, "*", 0);
    KeywordOf("$", info, "$");
  }

  /** `clearvars` empties the file variables and deletes the variables file. */
  lemma ExecuteClear(h: Host, m: Machine, k: string)
    requires Spelled(k, "clearvars")
    ensures Execute(h, m, k) == Outcome(m.(file := map[], disk := m.disk - {m.variables}), None)
  {
    assert k == k + [];
    KeywordOf(k, [], "clearvars");
  }

  // ------------------------------------------------------------ `if` blocks

  /** A quoted condition is evaluated as the text it quotes. */
  lemma QuotedCondition(h: Host, m: Machine, k: string, c: string)
    requires Spelled(k, "if ")
    ensures Condition(h, m, k + Quote(c)) == h.eval(c)
  {
    assert (k + Quote(c))[3..] == Quote(c);
    FormatQuoted(c, m.ram, m.file);
  }

  /** An unquoted condition that is not a variable, such as `1 == 1`, is rejected by the formatter. */
  lemma UnquotedCondition(h: Host, m: Machine, k: string, w: string)
    requires Spelled(k, "if ") && Plain(w) && DropSpaces(w) != []
    requires var c := DropSpaces(w)[0]; c != '*' && c != '$' && c != '+'
    ensures Condition(h, m, k + w) == Err(SyntaxError("expected * or $"))
  {
    assert (k + w)[3..] == w;
    FormatNotReference(w, m.ram, m.file);
  }

  /**
   * A false condition over `[body, endif, next]`: the body is skipped and
   * the line after `endif` is executed, untrimmed, by the same call.
   */
  lemma IfFalseSkips(h: Host, src: seq<string>, m: Machine, cur: nat, t: string)
    requires cur + 2 < |src| && |t| >= 3
    requires Condition(h, m, t) == Ok(false)
    requires !Stops(src[cur]) && StartsEndif(src[cur + 1])
    ensures IfStatement(h, src, m, cur, t) == Progress(Settle(Execute(h, m, src[cur + 2])), cur + 3)
  {
    assert SkipToStop(src, cur + 1, src[cur]) == Some(Stop(cur + 2, src[cur + 1]));
    assert ElsePart(h, src, m, cur) == Block(m, cur + 2, None);
  }

  /** An `else` branch made of one statement and `endif`. */
  lemma ElseOneStatement(h: Host, src: seq<string>, m: Machine, cur: nat, line: string, s: string)
    requires cur < |src|
    requires !StartsEndif(line) && StringUtils.Trimmed(line) == Ok(s) && !Keyword(s, "if ")
    requires StartsEndif(src[cur])
    ensures ElseBody(h, src, m, cur, line) == Block(Settle(Execute(h, m, s)), cur + 1, None)
  {
    var m' := Settle(Execute(h, m, s));
    assert Statement(h, src, m, cur, s) == Progress(m', cur);
    assert HandleLine(h, src, m, cur, line) == Progress(m', cur);
    assert ElseBody(h, src, m', cur + 1, src[cur]) == Block(m', cur + 1, None);
  }

  /**
   * A false condition over `[else, body, endif, next]`: the statement of
   * the `else` branch is handled, then the line after `endif`.
   */
  lemma IfFalseRunsElse(h: Host, src: seq<string>, m: Machine, cur: nat, t: string, s: string)
    requires cur + 3 < |src| && |t| >= 3
    requires Condition(h, m, t) == Ok(false)
    requires StartsElse(src[cur])
    requires !StartsEndif(src[cur + 1]) && StringUtils.Trimmed(src[cur + 1]) == Ok(s) && !Keyword(s, "if ")
    requires StartsEndif(src[cur + 2])
    ensures var m' := Settle(Execute(h, m, s));
      IfStatement(h, src, m, cur, t) == Progress(Settle(Execute(h, m', src[cur + 3])), cur + 4)
  {
    var b := Block(Settle(Execute(h, m, s)), cur + 3, None);
    assert ElseAfter(h, src, m, Some(Stop(cur + 1, src[cur]))) == ElseBody(h, src, m, cur + 2, src[cur + 1]);
    ElseOneStatement(h, src, m, cur + 2, src[cur + 1], s);
    assert SkipToStop(src, cur + 1, src[cur]) == Some(Stop(cur + 1, src[cur]));
    assert ElsePart(h, src, m, cur) == b;
  }

  /**
   * A true condition over `[body, endif, next]`: the body's statement is
   * handled, then the line after `endif`.
   */
  lemma IfTrueRuns(h: Host, src: seq<string>, m: Machine, cur: nat, t: string, s: string)
    requires cur + 2 < |src| && |t| >= 3
    requires Condition(h, m, t) == Ok(true)
    requires !Stops(src[cur]) && StringUtils.Trimmed(src[cur]) == Ok(s) && !Keyword(s, "if ")
    requires StartsEndif(src[cur + 1])
    ensures var m' := Settle(Execute(h, m, s));
      IfStatement(h, src, m, cur, t) == Progress(Settle(Execute(h, m', src[cur + 2])), cur + 3)
  {
    var m' := Settle(Execute(h, m, s));
    assert HandleLine(h, src, m, cur + 1, src[cur]) == Progress(m', cur + 1);
    assert ThenBody(h, src, m', cur + 2, src[cur + 1]) == Block(m', cur + 2, None);
    assert ThenPart(h, src, m, cur) == Block(m', cur + 2, None);
  }

  /**
   * A true condition whose body runs to the end of the script without
   * `endif`: the body is handled and "expected endif" is printed.
   */
  lemma IfTrueMissingEndif(h: Host, src: seq<string>, m: Machine, cur: nat, t: string, s: string)
    requires cur + 1 == |src| && |t| >= 3
    requires Condition(h, m, t) == Ok(true)
    requires !Stops(src[cur]) && StringUtils.Trimmed(src[cur]) == Ok(s) && !Keyword(s, "if ")
    ensures IfStatement(h, src, m, cur, t) == Progress(Report(Settle(Execute(h, m, s)), ExpectedEndif), |src|)
  {
    var m' := Settle(Execute(h, m, s));
    assert HandleLine(h, src, m, cur + 1, src[cur]) == Progress(m', cur + 1);
    assert ThenPart(h, src, m, cur) == Block(m', |src|, Some(ExpectedEndif));
  }

  // ------------------------------------------------------------ saving and loading

  /**
   * `savevars` then `loadvars` gives the file variables back, when the
   * map's key order lists every key and every entry is ASCII of length at
   * most 127: whatever the file variables are by the time of the load,
   * each saved entry is put back over them and the others are kept.
   */
  lemma SaveThenLoad(h: Host, m: Machine, base: Vars)
    requires h.canWrite(m.variables)
    requires forall k :: k in m.file <==> k in h.keyOrder(m.file)
    requires forall k :: k in m.file ==> ExmyVars.Storable(k, m.file[k])
    ensures SaveVars(h, m).error.None?
    ensures LoadVars(SaveVars(h, m).m.(file := base)) == Outcome(SaveVars(h, m).m.(file := base + m.file), None)
    ensures LoadVars(SaveVars(h, m).m) == SaveVars(h, m)
  {
    var saved := SaveVars(h, m).m;
    ExmyVars.SaveLoadRoundTrip(h.keyOrder(m.file), m.file, base);
    ExmyVars.SaveLoadRoundTrip(h.keyOrder(m.file), m.file, m.file);
    assert m.file + m.file == m.file;
    assert saved.(file := m.file) == saved;
  }
}

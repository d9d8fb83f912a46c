/**
 * `EXMY.FormatLine`: the character-by-character lexer that turns the
 * right-hand side of an Exomyte statement into a string. Text in double
 * quotes is copied with escapes decoded; outside quotes, spaces are dropped
 * and every other character is collected into a pending variable reference
 * (`*NAME` for a RAM variable, `$NAME` for a file variable) that is resolved
 * when the next quotation opens or the line ends, with `+` required between
 * a literal and a variable. Every error is rethrown as a
 * `NullPointerException` carrying the original message.
 */
module ExmyFormat {
  import opened Wrappers
  import opened Jvm

  type Vars = map<string, string>

  /** A syntax error, as the catch clause rethrows it. */
  function SyntaxError(detail: string): Thrown
  {
    Raise(NullPointer, "Syntax error: " + detail)
  }

  const Backspace: char := 8 as char
  const FormFeed: char := 12 as char

  /** The letters that may follow a backslash inside quotes, besides `\` and `"`. */
  predicate EscapeLetter(c: char)
  {
    c == 'n' || c == 'r' || c == 'b' || c == 't' || c == 'f'
  }

  function Unescape(c: char): char
    requires EscapeLetter(c)
  {
    match c
    case 'n' => '\n'
    case 'r' => '\r'
    case 'b' => Backspace
    case 't' => '\t'
    case 'f' => FormFeed
  }

  /** The characters accepted in a variable name: code points 48-57, 65-90, 97-122. */
  predicate Alnum(c: char)
  {
    ('0' <= c <= '9') || ('A' <= c <= 'Z') || ('a' <= c <= 'z')
  }

  predicate AllAlnum(s: string)
  {
    forall i :: 0 <= i < |s| ==> Alnum(s[i])
  }

  /** The longest run of name characters in `s` starting at `i`. */
  function AlnumRun(s: string, i: nat): (n: string)
    requires i <= |s|
    ensures i + |n| <= |s| && n == s[i..i + |n|]
    ensures AllAlnum(n)
    ensures i + |n| < |s| ==> !Alnum(s[i + |n|])
    decreases |s| - i
  {
    if i < |s| && Alnum(s[i]) then [s[i]] + AlnumRun(s, i + 1) else []
  }

  /** The value of a variable, or the error for an empty or unknown name. */
  function Lookup(vars: Vars, name: string): (r: Result<string, Thrown>)
    ensures r.Ok? <==> name != [] && name in vars
    ensures r.Ok? ==> r.value == vars[name]
    ensures r.Err? ==> r.error == SyntaxError("\"" + name + "\" is not a variable")
  {
    if |name| == 0 then
      assert "\"" + name + "\" is not a variable" == "\"\" is not a variable";
      Err(SyntaxError("\"\" is not a variable"))
    else if name !in vars then Err(SyntaxError("\"" + name + "\" is not a variable"))
    else Ok(vars[name])
  }

  /**
   * Resolves the pending unquoted text `v`, at an opening quote (`atQuote`)
   * or at the end of the line. After a literal (`before`), `v` must start
   * with `+`; otherwise it must not. At a quote it must also end with `+`.
   * Then `*` or `$` selects the map and the name is the longest run of name
   * characters after it; anything after the name is ignored. When `v` is
   * just `+` after a literal, `charAt(1)` fails.
   */
  function Resolve(v: string, before: bool, atQuote: bool, ram: Vars, file: Vars): (r: Result<string, Thrown>)
    requires v != []
    ensures r.Ok? ==> var i := if before then 1 else 0;
                      i < |v| && (v[i] == '*' || v[i] == '$')
  {
    var index := if before then 1 else 0;
    if before && v[0] != '+' then Err(SyntaxError("'+' expected between string and variable"))
    else if !before && v[0] == '+' then Err(SyntaxError("'+' was not expected"))
    else if atQuote && v[|v| - 1] != '+' then Err(SyntaxError("'+' expected between variable and string"))
    else if index >= |v| then Err(Raise(NullPointer, IndexMessage(index)))
    else if v[index] == '*' then Lookup(ram, AlnumRun(v, index + 1))
    else if v[index] == '$' then Lookup(file, AlnumRun(v, index + 1))
    else Err(SyntaxError("expected * or $"))
  }

  /**
   * The lexer's state between characters: `mode` is inside quotes, `esc`
   * the escape flag as the next character sees it, `before` that a
   * quotation has closed, `fin` the output so far and `pending` the
   * unquoted text not yet resolved. The Java loop clears `esc` whenever the
   * previous character was not a backslash; here every character other
   * than a backslash leaves `esc` false, which is the same thing.
   */
  datatype Lexer = Lexer(mode: bool, esc: bool, before: bool, fin: string, pending: string)

  const Start := Lexer(false, false, false, "", "")

  /** One iteration of the `for` loop. */
  function Step(st: Lexer, c: char, ram: Vars, file: Vars): Result<Lexer, Thrown>
  {
    if c == '\\' then
      if !st.esc then Ok(st.(esc := true))
      else if !st.mode then Err(SyntaxError("'\\\\'"))
      else Ok(st.(esc := false, fin := st.fin + "\\"))
    else if c == '"' then
      if st.esc then
        if !st.mode then Err(SyntaxError("'\\\"'"))
        else Ok(st.(esc := false, fin := st.fin + "\""))
      else if st.mode then Ok(st.(mode := false, before := true))
      else if st.pending == [] then Ok(st.(mode := true))
      else
        match Resolve(st.pending, st.before, true, ram, file)
        case Err(e) => Err(e)
        case Ok(v) => Ok(st.(mode := true, fin := st.fin + v, pending := ""))
    else if st.mode then
      if !st.esc then Ok(st.(fin := st.fin + [c]))
      else if EscapeLetter(c) then Ok(st.(esc := false, fin := st.fin + [Unescape(c)]))
      else Err(SyntaxError("'\\" + [c] + "' is not a valid escape"))
    else if c == ' ' then Ok(st.(esc := false))
    else Ok(st.(esc := false, pending := st.pending + [c]))
  }

  /** The loop over the characters of `s`, stopping at the first error. */
  function Lex(s: string, st: Lexer, ram: Vars, file: Vars): Result<Lexer, Thrown>
  {
    if s == [] then Ok(st)
    else
      match Step(st, s[0], ram, file)
      case Err(e) => Err(e)
      case Ok(st') => Lex(s[1..], st', ram, file)
  }

  /** After the loop: an open quotation fails, and pending text is resolved. */
  function Finish(st: Lexer, ram: Vars, file: Vars): Result<string, Thrown>
  {
    if st.mode then Err(SyntaxError("expected \" at end of string"))
    else if st.pending == [] then Ok(st.fin)
    else
      match Resolve(st.pending, st.before, false, ram, file)
      case Err(e) => Err(e)
      case Ok(v) => Ok(st.fin + v)
  }

  /** What `FormatLine(line, ram, file)` returns or throws. */
  function Format(line: string, ram: Vars, file: Vars): Result<string, Thrown>
  {
    match Lex(line, Start, ram, file)
    case Err(e) => Err(e)
    case Ok(st) => Finish(st, ram, file)
  }

  /** `EXMY.FormatLine`. */
  method FormatLine(line: string, ram: Vars, file: Vars) returns (r: Result<string, Thrown>)
    ensures r == Format(line, ram, file)
  {
    var mode, esc, before := false, false, false;
    var fin, pending := "", "";
    for u := 0 to |line|
      invariant u == 0 ==> !esc
      invariant Lex(line[u..], Lexer(mode, esc && u > 0 && line[u - 1] == '\\', before, fin, pending), ram, file)
                == Lex(line, Start, ram, file)
    {
      if u > 0 && line[u - 1] != '\\' {
        esc := false;
      }
      var c := line[u];
      assert line[u..][0] == c && line[u..][1..] == line[u + 1..];
      if c == '\\' {
        esc := !esc;
        if !esc {
          if !mode {
            return Err(SyntaxError("'\\\\'"));
          }
          fin := fin + "\\";
        }
      } else if c == '"' {
        if !esc {
          mode := !mode;
          if !mode {
            before := true;
          } else if |pending| > 0 {
            var v := Resolve(pending, before, true, ram, file);
            if v.Err? {
              return Err(v.error);
            }
            fin := fin + v.value;
            pending := "";
          }
        } else {
          if !mode {
            return Err(SyntaxError("'\\\"'"));
          }
          fin := fin + "\"";
        }
      } else if mode {
        if esc {
          if EscapeLetter(c) {
            fin := fin + [Unescape(c)];
          } else {
            return Err(SyntaxError("'\\" + [c] + "' is not a valid escape"));
          }
        } else {
          fin := fin + [c];
        }
      } else if c != ' ' {
        pending := pending + [c];
      }
    }
    if mode {
      return Err(SyntaxError("expected \" at end of string"));
    }
    if |pending| > 0 {
      var v := Resolve(pending, before, false, ram, file);
      if v.Err? {
        return Err(v.error);
      }
      fin := fin + v.value;
    }
    return Ok(fin);
  }

  // ------------------------------------------------------------ properties

  /** A line that does not continue with `b`: the lexer runs `a`, then `b`. */
  lemma {:induction false} LexAppend(a: string, b: string, st: Lexer, ram: Vars, file: Vars)
    ensures Lex(a + b, st, ram, file) == match Lex(a, st, ram, file)
                                         case Err(e) => Err(e)
                                         case Ok(st') => Lex(b, st', ram, file)
  {
    if a != [] {
      assert (a + b)[0] == a[0] && (a + b)[1..] == a[1..] + b;
      match Step(st, a[0], ram, file)
      case Err(e) =>
      case Ok(st') => LexAppend(a[1..], b, st', ram, file);
    } else {
      assert a + b == b;
    }
  }

  /** How a script writes a character inside quotes so that it comes out as itself. */
  function EscapeChar(c: char): string
  {
    if c == '\\' then "\\\\"
    else if c == '"' then "\\\""
    else if c == '\n' then "\\n"
    else if c == '\r' then "\\r"
    else if c == Backspace then "\\b"
    else if c == '\t' then "\\t"
    else if c == FormFeed then "\\f"
    else [c]
  }

  function Escape(t: string): string
  {
    if t == [] then [] else EscapeChar(t[0]) + Escape(t[1..])
  }

  /** A string literal whose value is `t`. */
  function Quote(t: string): string
  {
    "\"" + Escape(t) + "\""
  }

  lemma LexEscapeChar(c: char, st: Lexer, ram: Vars, file: Vars)
    requires st.mode && !st.esc
    ensures Lex(EscapeChar(c), st, ram, file) == Ok(st.(fin := st.fin + [c]))
  {
    var s1 := st.(esc := true);
    var x := if c == '\\' then '\\' else if c == '"' then '"' else if c == '\n' then 'n'
             else if c == '\r' then 'r' else if c == Backspace then 'b' else if c == '\t' then 't'
             else if c == FormFeed then 'f' else c;
    if x != c || c == '\\' || c == '"' {
      assert EscapeChar(c) == ['\\', x];
      assert Step(st, '\\', ram, file) == Ok(s1);
      assert Step(s1, x, ram, file) == Ok(st.(fin := st.fin + [c]));
      assert ['\\', x][1..] == [x];
      assert Lex([x], s1, ram, file) == Ok(st.(fin := st.fin + [c]));
      assert Lex(['\\', x], st, ram, file) == Lex([x], s1, ram, file);
    } else {
      assert EscapeChar(c) == [c];
    }
  }

  /** Inside quotes, escaped text is decoded back to the original. */
  lemma {:induction false} LexEscaped(t: string, st: Lexer, ram: Vars, file: Vars)
    requires st.mode && !st.esc
    ensures Lex(Escape(t), st, ram, file) == Ok(st.(fin := st.fin + t))
  {
    if t != [] {
      LexAppend(EscapeChar(t[0]), Escape(t[1..]), st, ram, file);
      LexEscapeChar(t[0], st, ram, file);
      LexEscaped(t[1..], st.(fin := st.fin + [t[0]]), ram, file);
      assert st.fin + [t[0]] + t[1..] == st.fin + t;
    } else {
      assert st.fin + t == st.fin;
    }
  }

  /**
   * A string literal: the pending variable reference, if any, is resolved
   * at the opening quote, then the decoded text is appended.
   */
  lemma LexQuote(t: string, st: Lexer, ram: Vars, file: Vars)
    requires !st.mode && !st.esc
    ensures Lex(Quote(t), st, ram, file) ==
              if st.pending == [] then Ok(st.(before := true, fin := st.fin + t))
              else match Resolve(st.pending, st.before, true, ram, file)
                   case Err(e) => Err(e)
                   case Ok(v) => Ok(st.(before := true, fin := st.fin + v + t, pending := ""))
  {
    var q := Quote(t);
    assert q == "\"" + (Escape(t) + "\"");
    LexAppend("\"", Escape(t) + "\"", st, ram, file);
    match Step(st, '"', ram, file)
    case Err(e) =>
    case Ok(s1) =>
      LexAppend(Escape(t), "\"", s1, ram, file);
      LexEscaped(t, s1, ram, file);
  }

  /** A quoted string formats to its value: every escape is decoded. */
  lemma FormatQuoted(t: string, ram: Vars, file: Vars)
    ensures Format(Quote(t), ram, file) == Ok(t)
  {
    LexQuote(t, Start, ram, file);
    assert "" + t == t;
  }

  /** An empty line formats to the empty string. */
  lemma FormatEmpty(ram: Vars, file: Vars)
    ensures Format("", ram, file) == Ok("")
  {
  }

  /** An unknown escape inside quotes fails, whatever follows it. */
  lemma FormatBadEscape(a: string, c: char, rest: string, ram: Vars, file: Vars)
    requires !EscapeLetter(c) && c != '\\' && c != '"'
    ensures Format("\"" + Escape(a) + "\\" + [c] + rest, ram, file)
            == Err(SyntaxError("'\\" + [c] + "' is not a valid escape"))
  {
    var s1 := Start.(mode := true);
    var line := "\"" + Escape(a) + "\\" + [c] + rest;
    assert line == "\"" + (Escape(a) + ("\\" + ([c] + rest)));
    LexAppend("\"", Escape(a) + ("\\" + ([c] + rest)), Start, ram, file);
    LexAppend(Escape(a), "\\" + ([c] + rest), s1, ram, file);
    LexEscaped(a, s1, ram, file);
    LexAppend("\\", [c] + rest, s1.(fin := a), ram, file);
    LexAppend([c], rest, s1.(fin := a, esc := true), ram, file);
  }

  /** A quotation still open at the end of the line fails. */
  lemma FormatUnclosed(t: string, ram: Vars, file: Vars)
    ensures Format("\"" + Escape(t), ram, file) == Err(SyntaxError("expected \" at end of string"))
  {
    LexAppend("\"", Escape(t), Start, ram, file);
    LexEscaped(t, Start.(mode := true), ram, file);
  }

  /** Text with no quote and no backslash. */
  predicate Plain(w: string)
  {
    forall i :: 0 <= i < |w| ==> w[i] != '"' && w[i] != '\\'
  }

  function DropSpaces(w: string): (r: string)
    ensures forall i :: 0 <= i < |r| ==> r[i] != ' '
  {
    if w == [] then [] else (if w[0] == ' ' then [] else [w[0]]) + DropSpaces(w[1..])
  }

  /** Outside quotes, plain text is collected into the pending reference, spaces dropped. */
  lemma {:induction false} LexUnquoted(w: string, st: Lexer, ram: Vars, file: Vars)
    requires !st.mode && !st.esc && Plain(w)
    ensures Lex(w, st, ram, file) == Ok(st.(pending := st.pending + DropSpaces(w)))
  {
    if w != [] {
      assert Plain(w[1..]) by { assert forall i :: 0 <= i < |w[1..]| ==> w[1..][i] == w[i + 1]; }
      var d := if w[0] == ' ' then [] else [w[0]];
      assert st.pending + d == if w[0] == ' ' then st.pending else st.pending + [w[0]];
      assert Step(st, w[0], ram, file) == Ok(st.(pending := st.pending + d));
      LexUnquoted(w[1..], st.(pending := st.pending + d), ram, file);
      assert st.pending + d + DropSpaces(w[1..]) == st.pending + DropSpaces(w);
    } else {
      assert st.pending + [] == st.pending;
    }
  }

  /** Spaces between string literals are dropped and the literals concatenate. */
  lemma FormatAdjacent(a: string, gap: string, b: string, ram: Vars, file: Vars)
    requires forall i :: 0 <= i < |gap| ==> gap[i] == ' '
    ensures Format(Quote(a) + gap + Quote(b), ram, file) == Ok(a + b)
  {
    var s1 := Start.(before := true, fin := a);
    LexAppend(Quote(a) + gap, Quote(b), Start, ram, file);
    LexAppend(Quote(a), gap, Start, ram, file);
    LexQuote(a, Start, ram, file);
    assert "" + a == a;
    LexUnquoted(gap, s1, ram, file);
    assert DropSpaces(gap) == [] by { NoSpacesLeft(gap); }
    assert s1.(pending := s1.pending + []) == s1;
    LexQuote(b, s1, ram, file);
  }

  lemma {:induction false} NoSpacesLeft(gap: string)
    requires forall i :: 0 <= i < |gap| ==> gap[i] == ' '
    ensures DropSpaces(gap) == []
  {
    if gap != [] {
      NoSpacesLeft(gap[1..]);
    }
  }

  lemma {:induction false} DropNoSpaces(w: string)
    requires forall i :: 0 <= i < |w| ==> w[i] != ' '
    ensures DropSpaces(w) == w
  {
    if w != [] {
      DropNoSpaces(w[1..]);
    }
  }

  lemma {:induction false} DropSpacesAppend(a: string, b: string)
    ensures DropSpaces(a + b) == DropSpaces(a) + DropSpaces(b)
  {
    if a != [] {
      assert (a + b)[1..] == a[1..] + b;
      DropSpacesAppend(a[1..], b);
    } else {
      assert a + b == b;
    }
  }

  /** The name is the longest run of name characters: it stops at the first other character. */
  lemma {:induction false} AlnumRunIs(s: string, i: nat, name: string)
    requires i + |name| <= |s| && s[i..i + |name|] == name && AllAlnum(name)
    requires i + |name| < |s| ==> !Alnum(s[i + |name|])
    ensures AlnumRun(s, i) == name
    decreases |name|
  {
    if name != [] {
      assert s[i] == name[0];
      assert s[i + 1..i + 1 + |name[1..]|] == name[1..];
      AlnumRunIs(s, i + 1, name[1..]);
    }
  }

  function Map(sigil: char, ram: Vars, file: Vars): Vars
  {
    if sigil == '*' then ram else file
  }

  /**
   * A reference alone on the line reads `*NAME` from the RAM variables and
   * `$NAME` from the file variables; whatever follows the name in the same
   * unquoted run is ignored.
   */
  lemma FormatReference(sigil: char, name: string, rest: string, ram: Vars, file: Vars)
    requires sigil == '*' || sigil == '$'
    requires AllAlnum(name) && Plain(rest)
    requires DropSpaces(rest) == [] || !Alnum(DropSpaces(rest)[0])
    ensures Format([sigil] + name + rest, ram, file) == Lookup(Map(sigil, ram, file), name)
  {
    var w := [sigil] + name + rest;
    var p := [sigil] + name + DropSpaces(rest);
    ReferenceText(sigil, name, rest);
    LexUnquoted(w, Start, ram, file);
    assert "" + p == p;
    assert p[1..1 + |name|] == name;
    assert 1 + |name| < |p| ==> p[1 + |name|] == DropSpaces(rest)[0];
    AlnumRunIs(p, 1, name);
    var r := Lookup(Map(sigil, ram, file), name);
    assert r.Ok? ==> "" + r.value == r.value;
  }

  lemma ReferenceText(sigil: char, name: string, rest: string)
    requires sigil == '*' || sigil == '$'
    requires AllAlnum(name) && Plain(rest)
    ensures Plain([sigil] + name + rest)
    ensures DropSpaces([sigil] + name + rest) == [sigil] + name + DropSpaces(rest)
  {
    AlnumPlain(name);
    PlainAppend([sigil], name);
    PlainAppend([sigil] + name, rest);
    DropSpacesAppend([sigil] + name, rest);
    DropSpacesAppend([sigil], name);
    DropNoSpaces(name);
    assert DropSpaces([sigil]) == [sigil] + DropSpaces([sigil][1..]);
    assert [sigil][1..] == [];
  }

  lemma AlnumPlain(name: string)
    requires AllAlnum(name)
    ensures Plain(name) && forall i :: 0 <= i < |name| ==> name[i] != ' '
  {
  }

  lemma PlainAppend(a: string, b: string)
    requires Plain(a) && Plain(b)
    ensures Plain(a + b)
  {
    assert forall i :: 0 <= i < |a + b| ==> (a + b)[i] == if i < |a| then a[i] else b[i - |a|];
  }

  /** An unquoted run that starts with neither `*`, `$` nor `+` is not a reference. */
  lemma FormatNotReference(w: string, ram: Vars, file: Vars)
    requires Plain(w) && DropSpaces(w) != []
    requires var c := DropSpaces(w)[0]; c != '*' && c != '$' && c != '+'
    ensures Format(w, ram, file) == Err(SyntaxError("expected * or $"))
  {
    LexUnquoted(w, Start, ram, file);
    assert "" + DropSpaces(w) == DropSpaces(w);
  }

  /** A `+` before anything was quoted is rejected. */
  lemma FormatLeadingPlus(w: string, ram: Vars, file: Vars)
    requires Plain(w)
    ensures Format("+" + w, ram, file) == Err(SyntaxError("'+' was not expected"))
  {
    LexUnquoted("+" + w, Start, ram, file);
    assert Plain("+" + w) by { assert forall i :: 1 <= i < |w| + 1 ==> ("+" + w)[i] == w[i - 1]; }
    DropSpacesAppend("+", w);
    assert "" + DropSpaces("+" + w) == DropSpaces("+" + w);
  }

  /** `"A" + *x + "B"` is A, then the value of x, then B. */
  lemma FormatConcat(a: string, sigil: char, name: string, b: string, ram: Vars, file: Vars)
    requires sigil == '*' || sigil == '$'
    requires AllAlnum(name) && name != [] && name in Map(sigil, ram, file)
    ensures Format(Quote(a) + " + " + [sigil] + name + " + " + Quote(b), ram, file)
            == Ok(a + Map(sigil, ram, file)[name] + b)
  {
    var mid := " + " + [sigil] + name + " + ";
    var v := Map(sigil, ram, file)[name];
    var p := "+" + [sigil] + name + "+";
    assert Quote(a) + " + " + [sigil] + name + " + " + Quote(b) == (Quote(a) + mid) + Quote(b);
    var s1 := Start.(before := true, fin := a);
    var s2 := s1.(pending := p);
    var s3 := s2.(fin := a + v + b, pending := "");
    assert Lex(Quote(a), Start, ram, file) == Ok(s1) by {
      LexQuote(a, Start, ram, file);
      assert "" + a == a;
    }
    assert Lex(mid, s1, ram, file) == Ok(s2) by {
      MiddleText(sigil, name);
      LexUnquoted(mid, s1, ram, file);
      assert "" + p == p;
    }
    assert Lex(Quote(b), s2, ram, file) == Ok(s3) by {
      ResolveBetween(sigil, name, ram, file);
      LexQuote(b, s2, ram, file);
    }
    LexAppend(Quote(a), mid, Start, ram, file);
    LexAppend(Quote(a) + mid, Quote(b), Start, ram, file);
  }

  lemma ResolveBetween(sigil: char, name: string, ram: Vars, file: Vars)
    requires sigil == '*' || sigil == '$'
    requires AllAlnum(name)
    ensures Resolve("+" + [sigil] + name + "+", true, true, ram, file) == Lookup(Map(sigil, ram, file), name)
  {
    var p := "+" + [sigil] + name + "+";
    assert p[2..2 + |name|] == name;
    AlnumRunIs(p, 2, name);
  }

  lemma MiddleText(sigil: char, name: string)
    requires sigil == '*' || sigil == '$'
    requires AllAlnum(name)
    ensures Plain(" + " + [sigil] + name + " + ")
    ensures DropSpaces(" + " + [sigil] + name + " + ") == "+" + [sigil] + name + "+"
  {
    ReferenceText(sigil, name, " + ");
    assert " + " + [sigil] + name + " + " == " + " + ([sigil] + name + " + ");
    PlainAppend(" + ", [sigil] + name + " + ");
    DropSpacesAppend(" + ", [sigil] + name + " + ");
    assert DropSpaces(" + ") == "+";
  }

  /** A reference right after a literal needs a `+` in front. */
  lemma FormatMissingPlusAfter(a: string, w: string, ram: Vars, file: Vars)
    requires Plain(w) && DropSpaces(w) != [] && DropSpaces(w)[0] != '+'
    ensures Format(Quote(a) + w, ram, file) == Err(SyntaxError("'+' expected between string and variable"))
  {
    LexAppend(Quote(a), w, Start, ram, file);
    LexQuote(a, Start, ram, file);
    assert "" + a == a;
    LexUnquoted(w, Start.(before := true, fin := a), ram, file);
    assert "" + DropSpaces(w) == DropSpaces(w);
  }

  /** A reference right before a literal needs a `+` after it. */
  lemma FormatMissingPlusBefore(w: string, b: string, ram: Vars, file: Vars)
    requires Plain(w) && DropSpaces(w) != []
    requires DropSpaces(w)[0] != '+' && DropSpaces(w)[|DropSpaces(w)| - 1] != '+'
    ensures Format(w + Quote(b), ram, file) == Err(SyntaxError("'+' expected between variable and string"))
  {
    LexAppend(w, Quote(b), Start, ram, file);
    LexUnquoted(w, Start, ram, file);
    assert "" + DropSpaces(w) == DropSpaces(w);
    LexQuote(b, Start.(pending := DropSpaces(w)), ram, file);
  }

  /**
   * `"a" + "b"` fails: the pending text is the lone `+`, and reading the
   * character after it is out of range.
   */
  lemma FormatPlusBetweenLiterals(a: string, b: string, ram: Vars, file: Vars)
    ensures Format(Quote(a) + " + " + Quote(b), ram, file) == Err(Raise(NullPointer, IndexMessage(1)))
  {
    var s1 := Start.(before := true, fin := a);
    LexAppend(Quote(a) + " + ", Quote(b), Start, ram, file);
    LexAppend(Quote(a), " + ", Start, ram, file);
    LexQuote(a, Start, ram, file);
    assert "" + a == a;
    LexUnquoted(" + ", s1, ram, file);
    assert DropSpaces(" + ") == "+";
    LexQuote(b, s1.(pending := "+"), ram, file);
  }
}

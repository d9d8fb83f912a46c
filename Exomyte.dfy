/**
 * `EXMY.Handle` and `EXMY.Run`: the Exomyte line interpreter.
 *
 * A line is trimmed of spaces and tabs and classified by its lower-cased
 * prefix. An `if` line reads further lines from the script's shared
 * cursor, handling the lines of the branch taken (recursively) and
 * skipping the others, and then handles one more line. Every exception
 * is caught and printed, so handling a line never fails.
 *
 * The parts of the machine that live outside the Java object are kept as
 * values: `disk` holds the files the variables are saved to and `out` the
 * lines printed. The handler lookup, the command runner, the JavaScript
 * evaluator, `Paths.getParent`, the file permissions and the iteration
 * order of a `HashMap` are functions of the `Host`.
 */
module Exomyte {
  import opened Wrappers
  import opened Jvm
  import Text
  import StringUtils
  import opened ExmyFormat
  import ExmyVars

  /** What `EXCH.GetEXCM` returns for a known alias: the EXCM name and its argument string. */
  datatype Alias = Alias(excm: string, args: string)

  datatype Host = Host(
    /** `EXCH.GetEXCM(handler, line)`: `None` when the line has no alias. */
    resolve: (string, string) -> Result<Option<Alias>, Thrown>,
    /** `EXCM.Run(path, args)`. */
    run: (string, string) -> Result<string, Thrown>,
    /** `(boolean) Engines.JavaScript.eval(expression)`. */
    eval: string -> Result<bool, Thrown>,
    /** `Paths.get(path).getParent()`, `None` for a bare file name. */
    folderName: string -> Option<string>,
    /** Whether `new FileOutputStream(path)` can open the file. */
    canWrite: string -> bool,
    /** The order in which a `HashMap` lists its keys. */
    keyOrder: Vars -> seq<string>)

  /** The interpreter's fields, the variable files on disk and the lines printed so far. */
  datatype Machine = Machine(
    ram: Vars,
    file: Vars,
    handler: string,
    namespace: string,
    variables: string,
    disk: map<string, seq<Byte>>,
    out: seq<string>)

  /** The machine after one statement, and the exception the statement threw. */
  datatype Outcome = Outcome(m: Machine, error: Option<Thrown>)

  /** The machine after handling a line, and how many script lines have been read. */
  datatype Progress = Progress(m: Machine, cur: nat)

  /** The machine after an `if` block, the lines read, and the exception that ended it. */
  datatype Block = Block(m: Machine, cur: nat, error: Option<Thrown>)

  /** The line an `if` block stopped skipping at, and the lines read up to and including it. */
  datatype Stop = Stop(cur: nat, line: string)

  // ------------------------------------------------------------ errors

  /** `Scanner.nextLine` past the end of the script. */
  const NoLine := Raise(NoSuchElement, "No line found")

  /** What running out of lines inside a taken `if` branch becomes. */
  const ExpectedEndif := Raise(NoSuchElement, "Syntax error: expected \"endif\" before end of file")

  /** The line the catch clauses of `Handle` print. */
  function Message(e: Thrown, handler: string): string
  {
    if e.kind == ClassNotFound then "Exception: " + Show(e) + ": The Handler \"" + handler + "\" was not found"
    else "Exception: " + Show(e)
  }

  function Report(m: Machine, e: Thrown): (r: Machine)
    ensures r == m.(out := m.out + [Message(e, m.handler)])
  {
    m.(out := m.out + [Message(e, m.handler)])
  }

  /** The machine once a statement's exception, if any, has been printed. */
  function Settle(o: Outcome): Machine
  {
    if o.error.Some? then Report(o.m, o.error.value) else o.m
  }

  // ------------------------------------------------------------ line shapes

  /** `s.length() >= |kw| && s.toLowerCase().substring(0, |kw|).equals(kw)`. */
  predicate Keyword(s: string, kw: string)
    ensures Keyword(s, kw) ==> |s| >= |kw|
  {
    kw == [] || (s != [] && Text.Lower(s[0]) == kw[0] && Keyword(s[1..], kw[1..]))
  }

  /** `s.length() == |kw| && s.toLowerCase().equals(kw)`. */
  predicate Whole(s: string, kw: string)
  {
    |s| == |kw| && Keyword(s, kw)
  }

  /** `line.toLowerCase().startsWith("endif")`. */
  predicate StartsEndif(line: string)
  {
    |line| >= 5 && Text.Lower(line[0]) == 'e' && Text.Lower(line[1]) == 'n' && Text.Lower(line[2]) == 'd'
    && Text.Lower(line[3]) == 'i' && Text.Lower(line[4]) == 'f'
  }

  /** `line.toLowerCase().startsWith("else")`. */
  predicate StartsElse(line: string)
  {
    |line| >= 4 && Text.Lower(line[0]) == 'e' && Text.Lower(line[1]) == 'l' && Text.Lower(line[2]) == 's'
    && Text.Lower(line[3]) == 'e'
  }

  /** A line that ends the statements of a taken `if` branch (it is not trimmed first). */
  predicate Stops(line: string)
  {
    StartsEndif(line) || StartsElse(line)
  }

  /** The length of the variable name at the head of `s`: every character up to the first space or `=`. */
  function NameLength(s: string): (n: nat)
    ensures n <= |s|
    ensures forall i :: 0 <= i < n ==> s[i] != ' ' && s[i] != '='
    ensures n < |s| ==> s[n] == ' ' || s[n] == '='
  {
    if |s| > 0 && s[0] != ' ' && s[0] != '=' then 1 + NameLength(s[1..]) else 0
  }

  /** The number of spaces at the head of `s` (tabs are not skipped). */
  function Spaces(s: string): (n: nat)
    ensures n <= |s|
    ensures forall i :: 0 <= i < n ==> s[i] == ' '
    ensures n < |s| ==> s[n] != ' '
  {
    if |s| > 0 && s[0] == ' ' then 1 + Spaces(s[1..]) else 0
  }

  function SkipSpaces(s: string): string
  {
    s[Spaces(s)..]
  }

  // ------------------------------------------------------------ statements

  /** `m` with `name` bound to `value` in the RAM map or, for `toFile`, the file map. */
  function Bind(m: Machine, toFile: bool, name: string, value: string): Machine
  {
    if toFile then m.(file := m.file[name := value]) else m.(ram := m.ram[name := value])
  }

  /**
   * The value of a right-hand side. Its first character is read
   * unconditionally. Text not opening a quotation is offered to the
   * handler first: an alias runs its EXCM with formatted arguments and the
   * response is the value; otherwise the text is formatted.
   */
  function RightHandSide(h: Host, m: Machine, rhs: string): Result<string, Thrown>
  {
    if rhs == [] then Err(Raise(StringIndexOutOfBounds, IndexMessage(0)))
    else if rhs[0] != '"' then
      match h.resolve(m.handler, rhs)
      case Err(e) => Err(e)
      case Ok(None) => Format(rhs, m.ram, m.file)
      case Ok(Some(a)) =>
        match Format(a.args, m.ram, m.file)
        case Err(e) => Err(e)
        case Ok(args) =>
          match h.run(m.namespace + a.excm + ".excm", args)
          case Err(_) => Err(Raise(FileNotFound, "EXCM '" + a.excm + "' was not found"))
          case Ok(response) => Ok(response)
    else Format(rhs, m.ram, m.file)
  }

  /** `let NAME [= RHS]` (`toFile` false) and `var NAME [= RHS]` (`toFile` true); `info` follows the keyword. */
  function Declaration(h: Host, m: Machine, info: string, toFile: bool): Outcome
  {
    var name := info[..NameLength(info)];
    var rest := SkipSpaces(info[NameLength(info)..]);
    if rest == [] then Outcome(Bind(m, toFile, name, ""), None)
    else if rest[0] != '=' then
      Outcome(m, Some(Raise(InvalidName, "Syntax error: variable name cannot contain spaces")))
    else
      match RightHandSide(h, m, SkipSpaces(rest[1..]))
      case Err(e) => Outcome(m, Some(e))
      case Ok(v) => Outcome(Bind(m, toFile, name, v), None)
  }

  /**
   * `*NAME = RHS` (`toFile` false) and `$NAME = RHS` (`toFile` true); `info`
   * follows the sigil. Both require NAME to be a RAM variable.
   */
  function Reassignment(h: Host, m: Machine, info: string, toFile: bool): Outcome
  {
    var name := info[..NameLength(info)];
    var rest := SkipSpaces(info[NameLength(info)..]);
    if name !in m.ram then
      Outcome(m, Some(Raise(NullPointer, "Syntax error: \"" + name + "\" is not a variable")))
    else if rest == [] then Outcome(m, Some(Raise(NullPointer, "Syntax error: '=' expected")))
    else if rest[0] != '=' then
      Outcome(m, Some(Raise(InvalidName, "Syntax error: Variable name cannot contain spaces")))
    else
      match RightHandSide(h, m, SkipSpaces(rest[1..]))
      case Err(e) => Outcome(m, Some(e))
      case Ok(v) => Outcome(Bind(m, toFile, name, v), None)
  }

  /** The message of every failure of `savevars` and `loadvars`. */
  const Unusable := "Invalid file or insufficient permissions"

  /** `savevars`: the variables file is overwritten with the file variables in map order. */
  function SaveVars(h: Host, m: Machine): Outcome
  {
    if !h.canWrite(m.variables) then Outcome(m, Some(Raise(FileNotFound, Unusable)))
    else Outcome(m.(disk := m.disk[m.variables := ExmyVars.Encode(h.keyOrder(m.file), m.file)]), None)
  }

  /** `loadvars`: the entries of the variables file are put into the file variables. */
  function LoadVars(m: Machine): Outcome
  {
    if m.variables !in m.disk then
      var missing := Raise(FileNotFound, m.variables + " (No such file or directory)");
      Outcome(m, Some(Raise(FileNotFound, Show(missing) + ": " + Unusable)))
    else
      var loaded := ExmyVars.LoadFrom(m.disk[m.variables], m.file);
      var m' := m.(file := loaded.vars);
      if loaded.error.Some? then Outcome(m', Some(Raise(FileNotFound, Show(loaded.error.value) + ": " + Unusable)))
      else Outcome(m', None)
  }

  /** Any other non-empty line: a command looked up through the handler. */
  function CommandLine(h: Host, m: Machine, input: string): Outcome
  {
    match h.resolve(m.handler, input)
    case Err(e) => Outcome(m, Some(e))
    case Ok(None) =>
      var words := Text.JavaSplit(input, " ");
      if words == [] then Outcome(m, Some(Raise(ArrayIndexOutOfBounds, "0")))
      else Outcome(m, Some(Raise(NullPointer, "Command \"" + words[0] + "\" has no alias")))
    case Ok(Some(a)) =>
      match Format(a.args, m.ram, m.file)
      case Err(e) => Outcome(m, Some(e))
      case Ok(args) =>
        match h.run(m.namespace + a.excm + ".excm", args)
        case Err(_) => Outcome(m, Some(Raise(FileNotFound, "EXCM \"" + a.excm + "\" was not found")))
        case Ok(response) => Outcome(if response == [] then m else m.(out := m.out + [response]), None)
  }

  /** The chain of statement forms `Handle` tries after the `if` check, in its order. */
  function Execute(h: Host, m: Machine, input: string): Outcome
  {
    if Keyword(input, "--exch ") then
      var m' := m.(handler := input[7..]);
      match h.folderName(input[7..])
      case None => Outcome(m', Some(Thrown(NullPointer, None)))
      case Some(d) => Outcome(m'.(namespace := d + "excm/"), None)
    else if Keyword(input, "--exvr ") then Outcome(m.(variables := input[7..]), None)
    else if Keyword(input, "let ") then Declaration(h, m, input[4..], false)
    else if Keyword(input, "var ") then Declaration(h, m, input[4..], true)
    else if Keyword(input, "*") then Reassignment(h, m, input[1..], false)
    else if Keyword(input, "$") then Reassignment(h, m, input[1..], true)
    else if Whole(input, "savevars") then SaveVars(h, m)
    else if Whole(input, "loadvars") then LoadVars(m)
    else if Whole(input, "clearvars") then Outcome(m.(file := map[], disk := m.disk - {m.variables}), None)
    else if input != [] then CommandLine(h, m, input)
    else Outcome(m, None)
  }

  // ------------------------------------------------------------ lines and blocks

  /** Skipping lines up to and including one that starts with `endif`; `line` has been read, `cur` lines in all. */
  function SkipToEndif(src: seq<string>, cur: nat, line: string): (r: Option<nat>)
    requires cur <= |src|
    ensures r.Some? ==> cur <= r.value <= |src|
    decreases |src| - cur
  {
    if StartsEndif(line) then Some(cur)
    else if cur == |src| then None
    else SkipToEndif(src, cur + 1, src[cur])
  }

  /** Skipping lines up to and including one that starts with `endif` or `else`. */
  function SkipToStop(src: seq<string>, cur: nat, line: string): (r: Option<Stop>)
    requires cur <= |src|
    ensures r.Some? ==> cur <= r.value.cur <= |src| && Stops(r.value.line)
    decreases |src| - cur
  {
    if Stops(line) then Some(Stop(cur, line))
    else if cur == |src| then None
    else SkipToStop(src, cur + 1, src[cur])
  }

  /** An `if` line's condition: the text after `if ` is formatted and evaluated. */
  function Condition(h: Host, m: Machine, t: string): Result<bool, Thrown>
    requires |t| >= 3
  {
    match Format(t[3..], m.ram, m.file)
    case Err(e) => Err(e)
    case Ok(exp) => h.eval(exp)
  }

  /** After an `if` block: its exception is printed, or one more line is read and executed. */
  function AfterBlock(h: Host, src: seq<string>, blk: Block): (r: Progress)
    requires blk.cur <= |src|
    ensures blk.cur <= r.cur <= |src|
  {
    if blk.error.Some? then Progress(Report(blk.m, blk.error.value), blk.cur)
    else if blk.cur == |src| then Progress(Report(blk.m, NoLine), blk.cur)
    else Progress(Settle(Execute(h, blk.m, src[blk.cur])), blk.cur + 1)
  }

  /**
   * `Handle(input)` with the script `src` of which `cur` lines have been
   * read: the new machine and how many lines have been read then.
   */
  function HandleLine(h: Host, src: seq<string>, m: Machine, cur: nat, input: string): (r: Progress)
    requires cur <= |src|
    ensures cur <= r.cur <= |src|
    decreases |src| - cur, 4
  {
    match StringUtils.Trimmed(input)
    case Err(e) => Progress(Report(m, e), cur)
    case Ok(t) => Statement(h, src, m, cur, t)
  }

  /** A trimmed line: an `if` block, or one statement whose exception, if any, is printed. */
  function Statement(h: Host, src: seq<string>, m: Machine, cur: nat, t: string): (r: Progress)
    requires cur <= |src|
    ensures cur <= r.cur <= |src|
    decreases |src| - cur, 3
  {
    if Keyword(t, "if ") then IfStatement(h, src, m, cur, t)
    else Progress(Settle(Execute(h, m, t)), cur)
  }

  /** A trimmed line starting with `if `. */
  function IfStatement(h: Host, src: seq<string>, m: Machine, cur: nat, t: string): (r: Progress)
    requires cur <= |src| && |t| >= 3
    ensures cur <= r.cur <= |src|
    decreases |src| - cur, 2
  {
    match Condition(h, m, t)
    case Err(e) => Progress(Report(m, e), cur)
    case Ok(b) => AfterBlock(h, src, if b then ThenPart(h, src, m, cur) else ElsePart(h, src, m, cur))
  }

  /** A true condition: the branch's lines are handled up to `else` or `endif`, then skipped to `endif`. */
  function ThenPart(h: Host, src: seq<string>, m: Machine, cur: nat): (r: Block)
    requires cur <= |src|
    ensures cur <= r.cur <= |src|
    decreases |src| - cur, 1
  {
    if cur == |src| then Block(m, cur, Some(ExpectedEndif))
    else ThenBody(h, src, m, cur + 1, src[cur])
  }

  /** The loop of a taken branch, `line` having just been read. */
  function ThenBody(h: Host, src: seq<string>, m: Machine, cur: nat, line: string): (r: Block)
    requires cur <= |src|
    ensures cur <= r.cur <= |src|
    decreases |src| - cur, 5
  {
    if Stops(line) then
      match SkipToEndif(src, cur, line)
      case None => Block(m, |src|, Some(ExpectedEndif))
      case Some(c) => Block(m, c, None)
    else
      var p := HandleLine(h, src, m, cur, line);
      if p.cur == |src| then Block(p.m, p.cur, Some(ExpectedEndif))
      else ThenBody(h, src, p.m, p.cur + 1, src[p.cur])
  }

  /** A false condition: lines are skipped to `else` or `endif`; after `else` they are handled up to `endif`. */
  function ElsePart(h: Host, src: seq<string>, m: Machine, cur: nat): (r: Block)
    requires cur <= |src|
    ensures cur <= r.cur <= |src|
    decreases |src| - cur, 1
  {
    if cur == |src| then Block(m, cur, Some(NoLine))
    else ElseAfter(h, src, m, SkipToStop(src, cur + 1, src[cur]))
  }

  /** What follows the skipped lines of a false condition, `stop` being the `else` or `endif` line reached. */
  function ElseAfter(h: Host, src: seq<string>, m: Machine, stop: Option<Stop>): (r: Block)
    requires stop.Some? ==> stop.value.cur <= |src|
    ensures stop.Some? ==> stop.value.cur <= r.cur <= |src|
    ensures stop.None? ==> r == Block(m, |src|, Some(NoLine))
    decreases if stop.Some? then |src| - stop.value.cur + 1 else 0, 0
  {
    match stop
    case None => Block(m, |src|, Some(NoLine))
    case Some(s) =>
      if !StartsElse(s.line) then Block(m, s.cur, None)
      else if s.cur == |src| then Block(m, s.cur, Some(NoLine))
      else ElseBody(h, src, m, s.cur + 1, src[s.cur])
  }

  /** The loop of an `else` branch, `line` having just been read. */
  function ElseBody(h: Host, src: seq<string>, m: Machine, cur: nat, line: string): (r: Block)
    requires cur <= |src|
    ensures cur <= r.cur <= |src|
    decreases |src| - cur, 5
  {
    if StartsEndif(line) then Block(m, cur, None)
    else
      var p := HandleLine(h, src, m, cur, line);
      if p.cur == |src| then Block(p.m, p.cur, Some(NoLine))
      else ElseBody(h, src, p.m, p.cur + 1, src[p.cur])
  }

  // Single unfoldings of the block functions, for the loops that follow them.

  lemma ThenOpens(h: Host, src: seq<string>, m: Machine, cur: nat)
    requires cur < |src|
    ensures ThenPart(h, src, m, cur) == ThenBody(h, src, m, cur + 1, src[cur])
  {
  }

  lemma ThenContinues(h: Host, src: seq<string>, m: Machine, cur: nat, line: string, p: Progress, next: string)
    requires cur <= |src| && !Stops(line) && p == HandleLine(h, src, m, cur, line)
    requires p.cur < |src| && next == src[p.cur]
    ensures ThenBody(h, src, m, cur, line) == ThenBody(h, src, p.m, p.cur + 1, next)
  {
    var r := ThenBody(h, src, m, cur, line);
    assert r == ThenBody(h, src, p.m, p.cur + 1, src[p.cur]);
  }

  lemma ThenRunsOut(h: Host, src: seq<string>, m: Machine, cur: nat, line: string, p: Progress)
    requires cur <= |src| && !Stops(line) && p == HandleLine(h, src, m, cur, line) && p.cur == |src|
    ensures ThenBody(h, src, m, cur, line) == Block(p.m, p.cur, Some(ExpectedEndif))
  {
  }

  lemma ThenSkips(h: Host, src: seq<string>, m: Machine, cur: nat, line: string)
    requires cur <= |src| && Stops(line)
    ensures ThenBody(h, src, m, cur, line) ==
      match SkipToEndif(src, cur, line)
      case None => Block(m, |src|, Some(ExpectedEndif))
      case Some(c) => Block(m, c, None)
  {
  }

  lemma ElseContinues(h: Host, src: seq<string>, m: Machine, cur: nat, line: string, p: Progress, next: string)
    requires cur <= |src| && !StartsEndif(line) && p == HandleLine(h, src, m, cur, line)
    requires p.cur < |src| && next == src[p.cur]
    ensures ElseBody(h, src, m, cur, line) == ElseBody(h, src, p.m, p.cur + 1, next)
  {
    var r := ElseBody(h, src, m, cur, line);
    assert r == ElseBody(h, src, p.m, p.cur + 1, src[p.cur]);
  }

  lemma ElseRunsOut(h: Host, src: seq<string>, m: Machine, cur: nat, line: string, p: Progress)
    requires cur <= |src| && !StartsEndif(line) && p == HandleLine(h, src, m, cur, line) && p.cur == |src|
    ensures ElseBody(h, src, m, cur, line) == Block(p.m, p.cur, Some(NoLine))
  {
  }

  lemma RunContinues(h: Host, src: seq<string>, m: Machine, cur: nat, p: Progress)
    requires cur < |src| && p == HandleLine(h, src, m, cur + 1, src[cur])
    ensures RunLines(h, src, m, cur) == RunLines(h, src, p.m, p.cur)
  {
  }

  /** The loop of `Run`: every line not consumed by an `if` block is handled in turn. */
  function RunLines(h: Host, src: seq<string>, m: Machine, cur: nat): Machine
    requires cur <= |src|
    decreases |src| - cur
  {
    if cur == |src| then m
    else
      var p := HandleLine(h, src, m, cur + 1, src[cur]);
      RunLines(h, src, p.m, p.cur)
  }

  /**
   * The path defaulting of `Run`: an empty handler or variables path is
   * taken from the script's folder. `getParent()` being null throws out of
   * `Run`, after the handler paths have been set if that happens on the
   * second call.
   */
  function Defaults(h: Host, m: Machine, script: string): Outcome
  {
    if m.handler == [] && h.folderName(script).None? then Outcome(m, Some(Thrown(NullPointer, None)))
    else
      var m1 :=
        if m.handler != [] then m
        else if h.folderName(script).value == script then m.(namespace := "excm/", handler := "handler.exch")
        else m.(namespace := h.folderName(script).value + "excm/", handler := h.folderName(script).value + "Handler.exch");
      if m1.variables != [] then Outcome(m1, None)
      else if h.folderName(script).None? then Outcome(m1, Some(Thrown(NullPointer, None)))
      else if h.folderName(script).value == script then Outcome(m1.(variables := "variables.exvr"), None)
      else Outcome(m1.(variables := h.folderName(script).value + "variables.exvr"), None)
  }

  // ------------------------------------------------------------ the interpreter

  /** The loop that collects a variable name: characters up to the first space or `=`. */
  method ReadName(info: string) returns (name: string, rest: string)
    ensures name == info[..NameLength(info)] && rest == info[NameLength(info)..]
  {
    name, rest := "", info;
    while |rest| > 0 && rest[0] != ' ' && rest[0] != '='
      invariant name + rest == info
      invariant |name| + NameLength(rest) == NameLength(info)
    {
      assert rest == [rest[0]] + rest[1..];
      name := name + [rest[0]];
      rest := rest[1..];
    }
  }

  /** The loops that drop the spaces at the head of the statement text. */
  method SkipBlanks(s: string) returns (r: string)
    ensures r == SkipSpaces(s)
  {
    r := s;
    while |r| > 0 && r[0] == ' '
      invariant |r| <= |s| && r == s[|s| - |r|..]
      invariant |s| - |r| + Spaces(r) == Spaces(s)
    {
      r := r[1..];
    }
  }

  /**
   * An `EXMY` object running a script: its fields, the `Scanner` over the
   * script as the lines `source` of which `cursor` have been read, and the
   * files and printed lines it affects.
   */
  class Exmy {
    var ramVars: Vars
    var fileVars: Vars
    var handler: string
    var namespace: string
    var variables: string
    var disk: map<string, seq<Byte>>
    var out: seq<string>
    var source: seq<string>
    var cursor: nat
    const host: Host

    function Snapshot(): Machine
      reads this`ramVars, this`fileVars, this`handler, this`namespace, this`variables, this`disk, this`out
    {
      Machine(ramVars, fileVars, handler, namespace, variables, disk, out)
    }

    /** `new EXMY()`: empty paths and empty maps. */
    constructor (host: Host, disk: map<string, seq<Byte>>)
      ensures this.host == host
      ensures Snapshot() == Machine(map[], map[], "", "", "", disk, [])
      ensures source == [] && cursor == 0
    {
      this.host := host;
      ramVars, fileVars := map[], map[];
      handler, namespace, variables := "", "", "";
      this.disk, out := disk, [];
      source, cursor := [], 0;
    }

    /** `new EXMY(handlerPath, varPath)`, which throws when the handler path has no parent. */
    static method Create(host: Host, disk: map<string, seq<Byte>>, handlerPath: string, varPath: string)
      returns (r: Result<Exmy, Thrown>)
      ensures r.Err? <==> host.folderName(handlerPath).None?
      ensures r.Err? ==> r.error == Thrown(NullPointer, None)
      ensures r.Ok? ==> fresh(r.value) && r.value.host == host && r.value.source == [] && r.value.cursor == 0
      ensures r.Ok? ==>
        r.value.Snapshot() == Machine(map[], map[], handlerPath, host.folderName(handlerPath).value + "excm/", varPath, disk, [])
    {
      var e := new Exmy(host, disk);
      e.handler := handlerPath;
      var folder := host.folderName(e.handler);
      if folder.None? {
        return Err(Thrown(NullPointer, None));
      }
      e.namespace := folder.value + "excm/";
      e.variables := varPath;
      return Ok(e);
    }

    /** `Source.nextLine()`. */
    method NextLine() returns (r: Result<string, Thrown>)
      requires cursor <= |source|
      modifies this`cursor
      ensures old(cursor) < |source| ==> r == Ok(source[old(cursor)]) && cursor == old(cursor) + 1
      ensures old(cursor) == |source| ==> r == Err(NoLine) && cursor == old(cursor)
    {
      if cursor == |source| {
        return Err(NoLine);
      }
      r := Ok(source[cursor]);
      cursor := cursor + 1;
    }

    /** The catch clauses of `Handle`. */
    method Catch(e: Thrown)
      modifies this`out
      ensures out == old(out) + [Message(e, handler)]
    {
      out := out + [Message(e, handler)];
    }

    /** `EXMY.Handle`: handles one line, reading further lines when it is an `if`. */
    method Handle(input: string)
      requires cursor <= |source|
      modifies this
      ensures source == old(source)
      ensures Progress(Snapshot(), cursor) == HandleLine(host, source, old(Snapshot()), old(cursor), input)
      decreases |source| - cursor, 5
    {
      var trimmed := StringUtils.Trim(Some(input));
      if trimmed.Err? {
        Catch(trimmed.error);
        return;
      }
      HandleTrimmed(trimmed.value.value);
    }

    /** The rest of `Handle` once the line is trimmed. */
    method HandleTrimmed(t: string)
      requires cursor <= |source|
      modifies this
      ensures source == old(source)
      ensures Progress(Snapshot(), cursor) == Statement(host, source, old(Snapshot()), old(cursor), t)
      decreases |source| - cursor, 4
    {
      if Keyword(t, "if ") {
        IfBlock(t);
      } else {
        Perform(t);
      }
    }

    /** An `if` line: the condition is evaluated, the block run, and the line after `endif` executed. */
    method IfBlock(t: string)
      requires cursor <= |source| && |t| >= 3
      modifies this
      ensures source == old(source)
      ensures Progress(Snapshot(), cursor) == IfStatement(host, source, old(Snapshot()), old(cursor), t)
      decreases |source| - cursor, 3
    {
      var exp := FormatLine(t[3..], ramVars, fileVars);
      if exp.Err? {
        Catch(exp.error);
        return;
      }
      var cond := host.eval(exp.value);
      if cond.Err? {
        Catch(cond.error);
        return;
      }
      var error;
      if cond.value {
        error := RunThen();
      } else {
        error := RunElse();
      }
      if error.Some? {
        Catch(error.value);
        return;
      }
      var next := NextLine();
      if next.Err? {
        Catch(next.error);
        return;
      }
      Perform(next.value);
    }

    /** One statement, its exception, if any, printed. */
    method Perform(t: string)
      modifies this
      ensures source == old(source) && cursor == old(cursor)
      ensures Snapshot() == Settle(Execute(host, old(Snapshot()), t))
    {
      var error := Dispatch(t);
      if error.Some? {
        Catch(error.value);
      }
    }

    /** The taken branch of an `if`: handle lines up to `else` or `endif`, then skip to `endif`. */
    method RunThen() returns (error: Option<Thrown>)
      requires cursor <= |source|
      modifies this
      ensures source == old(source)
      ensures Block(Snapshot(), cursor, error) == ThenPart(host, source, old(Snapshot()), old(cursor))
      decreases |source| - cursor, 2
    {
      var next := NextLine();
      if next.Err? {
        return Some(ExpectedEndif);
      }
      ThenOpens(host, source, old(Snapshot()), old(cursor));
      error := ThenLoop(next.value);
    }

    /** The loop of the taken branch, `line` having just been read. */
    method ThenLoop(line: string) returns (error: Option<Thrown>)
      requires cursor <= |source|
      modifies this
      ensures source == old(source)
      ensures Block(Snapshot(), cursor, error) == ThenBody(host, source, old(Snapshot()), old(cursor), line)
      decreases |source| - cursor, 7
    {
      ghost var target := ThenBody(host, source, Snapshot(), cursor, line);
      var current := line;
      while !Stops(current)
        invariant source == old(source)
        invariant old(cursor) <= cursor <= |source|
        invariant ThenBody(host, source, Snapshot(), cursor, current) == target
        decreases |source| - cursor
      {
        var next := ThenStep(current);
        if next.None? {
          return Some(ExpectedEndif);
        }
        current := next.value;
      }
      ThenSkips(host, source, Snapshot(), cursor, current);
      var found, _ := SkipLines(current, false);
      return if found then None else Some(ExpectedEndif);
    }

    /** One turn of the taken branch's loop: `line` is handled and the next line read, if any. */
    method ThenStep(line: string) returns (next: Option<string>)
      requires cursor <= |source| && !Stops(line)
      modifies this
      ensures source == old(source) && old(cursor) <= cursor <= |source|
      ensures next.None? ==>
        Block(Snapshot(), cursor, Some(ExpectedEndif)) == ThenBody(host, source, old(Snapshot()), old(cursor), line)
      ensures next.Some? ==> old(cursor) < cursor
      ensures next.Some? ==>
        ThenBody(host, source, Snapshot(), cursor, next.value) == ThenBody(host, source, old(Snapshot()), old(cursor), line)
      decreases |source| - cursor, 6
    {
      ghost var before, at := Snapshot(), cursor;
      Handle(line);
      ghost var p := Progress(Snapshot(), cursor);
      var r := NextLine();
      if r.Err? {
        ThenRunsOut(host, source, before, at, line, p);
        return None;
      }
      ThenContinues(host, source, before, at, line, p, r.value);
      return Some(r.value);
    }

    /**
     * The skipping loops of an `if` block: lines are read until one starts
     * with `endif` (or, for `orElse`, with `else`); `line` is the last line
     * read. Returns whether such a line was found.
     */
    method SkipLines(line: string, orElse: bool) returns (found: bool, last: string)
      requires cursor <= |source|
      modifies this`cursor
      ensures !orElse ==> match SkipToEndif(source, old(cursor), line)
                          case None => !found && cursor == |source|
                          case Some(c) => found && cursor == c
      ensures orElse ==> match SkipToStop(source, old(cursor), line)
                         case None => !found && cursor == |source|
                         case Some(s) => found && cursor == s.cur && last == s.line
    {
      var current := line;
      while !(StartsEndif(current) || (orElse && StartsElse(current)))
        invariant old(cursor) <= cursor <= |source|
        invariant !orElse ==> SkipToEndif(source, cursor, current) == SkipToEndif(source, old(cursor), line)
        invariant orElse ==> SkipToStop(source, cursor, current) == SkipToStop(source, old(cursor), line)
        decreases |source| - cursor
      {
        var next := NextLine();
        if next.Err? {
          return false, current;
        }
        current := next.value;
      }
      return true, current;
    }

    /** The untaken branch of an `if`: skip to `else` or `endif`; after `else`, handle lines up to `endif`. */
    method RunElse() returns (error: Option<Thrown>)
      requires cursor <= |source|
      modifies this
      ensures source == old(source)
      ensures Block(Snapshot(), cursor, error) == ElsePart(host, source, old(Snapshot()), old(cursor))
      decreases |source| - cursor, 2
    {
      var next := NextLine();
      if next.Err? {
        return Some(NoLine);
      }
      error := SkipElse(next.value);
    }

    /** The skipping loop of the untaken branch, `line` having just been read, and what follows it. */
    method SkipElse(line: string) returns (error: Option<Thrown>)
      requires cursor <= |source|
      modifies this
      ensures source == old(source)
      ensures Block(Snapshot(), cursor, error) == ElseAfter(host, source, old(Snapshot()), SkipToStop(source, old(cursor), line))
      decreases |source| - cursor, 0
    {
      var found, last := SkipLines(line, true);
      if !found {
        return Some(NoLine);
      }
      if !StartsElse(last) {
        return None;
      }
      var next := NextLine();
      if next.Err? {
        return Some(NoLine);
      }
      error := ElseLoop(next.value);
    }

    /** The loop of an `else` branch, `line` having just been read. */
    method ElseLoop(line: string) returns (error: Option<Thrown>)
      requires cursor <= |source|
      modifies this
      ensures source == old(source)
      ensures Block(Snapshot(), cursor, error) == ElseBody(host, source, old(Snapshot()), old(cursor), line)
      decreases |source| - cursor, 7
    {
      ghost var target := ElseBody(host, source, Snapshot(), cursor, line);
      var current := line;
      while !StartsEndif(current)
        invariant source == old(source)
        invariant old(cursor) <= cursor <= |source|
        invariant ElseBody(host, source, Snapshot(), cursor, current) == target
        decreases |source| - cursor
      {
        var next := ElseStep(current);
        if next.None? {
          return Some(NoLine);
        }
        current := next.value;
      }
      return None;
    }

    /** One turn of an `else` branch's loop: `line` is handled and the next line read, if any. */
    method ElseStep(line: string) returns (next: Option<string>)
      requires cursor <= |source| && !StartsEndif(line)
      modifies this
      ensures source == old(source) && old(cursor) <= cursor <= |source|
      ensures next.None? ==>
        Block(Snapshot(), cursor, Some(NoLine)) == ElseBody(host, source, old(Snapshot()), old(cursor), line)
      ensures next.Some? ==> old(cursor) < cursor
      ensures next.Some? ==>
        ElseBody(host, source, Snapshot(), cursor, next.value) == ElseBody(host, source, old(Snapshot()), old(cursor), line)
      decreases |source| - cursor, 6
    {
      ghost var before, at := Snapshot(), cursor;
      Handle(line);
      ghost var p := Progress(Snapshot(), cursor);
      var r := NextLine();
      if r.Err? {
        ElseRunsOut(host, source, before, at, line, p);
        return None;
      }
      ElseContinues(host, source, before, at, line, p, r.value);
      return Some(r.value);
    }

    /** The statement forms of `Handle` after the `if` check; returns what the statement threw. */
    method Dispatch(input: string) returns (error: Option<Thrown>)
      modifies this
      ensures source == old(source) && cursor == old(cursor)
      ensures Outcome(Snapshot(), error) == Execute(host, old(Snapshot()), input)
    {
      if Keyword(input, "--exch ") {
        handler := input[7..];
        var folder := host.folderName(handler);
        if folder.None? {
          return Some(Thrown(NullPointer, None));
        }
        namespace := folder.value + "excm/";
        error := None;
      } else if Keyword(input, "--exvr ") {
        variables := input[7..];
        error := None;
      } else if Keyword(input, "let ") {
        error := Declare(input[4..], false);
      } else if Keyword(input, "var ") {
        error := Declare(input[4..], true);
      } else if Keyword(input, "*") {
        error := Reassign(input[1..], false);
      } else if Keyword(input, "$") {
        error := Reassign(input[1..], true);
      } else if Whole(input, "savevars") {
        error := SaveVariables();
      } else if Whole(input, "loadvars") {
        error := LoadVariables();
      } else if Whole(input, "clearvars") {
        fileVars := map[];
        disk := disk - {variables};
        error := None;
      } else if |input| > 0 {
        error := RunCommand(input);
      } else {
        error := None;
      }
    }

    /** `RamVars.put` or `FileVars.put`. */
    method Put(toFile: bool, name: string, value: string)
      modifies this`ramVars, this`fileVars
      ensures Snapshot() == Bind(old(Snapshot()), toFile, name, value)
    {
      if toFile {
        fileVars := fileVars[name := value];
      } else {
        ramVars := ramVars[name := value];
      }
    }

    /** The value of a right-hand side: an EXCM's response or the formatted text. */
    method Evaluate(rhs: string) returns (r: Result<string, Thrown>)
      ensures r == RightHandSide(host, Snapshot(), rhs)
    {
      if |rhs| == 0 {
        return Err(Raise(StringIndexOutOfBounds, IndexMessage(0)));
      }
      if rhs[0] != '"' {
        var alias := host.resolve(handler, rhs);
        if alias.Err? {
          return Err(alias.error);
        }
        if alias.value.None? {
          r := FormatLine(rhs, ramVars, fileVars);
          return;
        }
        var a := alias.value.value;
        var args := FormatLine(a.args, ramVars, fileVars);
        if args.Err? {
          return Err(args.error);
        }
        var response := host.run(namespace + a.excm + ".excm", args.value);
        if response.Err? {
          return Err(Raise(FileNotFound, "EXCM '" + a.excm + "' was not found"));
        }
        return Ok(response.value);
      }
      r := FormatLine(rhs, ramVars, fileVars);
    }

    /** `let` and `var`. */
    method Declare(info: string, toFile: bool) returns (error: Option<Thrown>)
      modifies this`ramVars, this`fileVars
      ensures Outcome(Snapshot(), error) == Declaration(host, old(Snapshot()), info, toFile)
    {
      var name, rest := ReadName(info);
      rest := SkipBlanks(rest);
      if |rest| == 0 {
        Put(toFile, name, "");
        return None;
      }
      if rest[0] != '=' {
        return Some(Raise(InvalidName, "Syntax error: variable name cannot contain spaces"));
      }
      rest := SkipBlanks(rest[1..]);
      var value := Evaluate(rest);
      if value.Err? {
        return Some(value.error);
      }
      Put(toFile, name, value.value);
      return None;
    }

    /** `*NAME = …` and `$NAME = …`. */
    method Reassign(info: string, toFile: bool) returns (error: Option<Thrown>)
      modifies this`ramVars, this`fileVars
      ensures Outcome(Snapshot(), error) == Reassignment(host, old(Snapshot()), info, toFile)
    {
      var name, rest := ReadName(info);
      if name !in ramVars {
        return Some(Raise(NullPointer, "Syntax error: \"" + name + "\" is not a variable"));
      }
      rest := SkipBlanks(rest);
      if |rest| == 0 {
        return Some(Raise(NullPointer, "Syntax error: '=' expected"));
      }
      if rest[0] != '=' {
        return Some(Raise(InvalidName, "Syntax error: Variable name cannot contain spaces"));
      }
      rest := SkipBlanks(rest[1..]);
      var value := Evaluate(rest);
      if value.Err? {
        return Some(value.error);
      }
      Put(toFile, name, value.value);
      return None;
    }

    /** `savevars`. */
    method SaveVariables() returns (error: Option<Thrown>)
      modifies this`disk
      ensures Outcome(Snapshot(), error) == SaveVars(host, old(Snapshot()))
    {
      if !host.canWrite(variables) {
        return Some(Raise(FileNotFound, Unusable));
      }
      var bytes := ExmyVars.Save(host.keyOrder(fileVars), fileVars);
      disk := disk[variables := bytes];
      return None;
    }

    /** `loadvars`. */
    method LoadVariables() returns (error: Option<Thrown>)
      modifies this`fileVars
      ensures Outcome(Snapshot(), error) == LoadVars(old(Snapshot()))
    {
      if variables !in disk {
        var missing := Raise(FileNotFound, variables + " (No such file or directory)");
        return Some(Raise(FileNotFound, Show(missing) + ": " + Unusable));
      }
      var loaded := ExmyVars.Load(disk[variables], fileVars);
      fileVars := loaded.vars;
      if loaded.error.Some? {
        return Some(Raise(FileNotFound, Show(loaded.error.value) + ": " + Unusable));
      }
      return None;
    }

    /** A command line: the alias is resolved, its EXCM run and a non-empty response printed. */
    method RunCommand(input: string) returns (error: Option<Thrown>)
      modifies this`out
      ensures Outcome(Snapshot(), error) == CommandLine(host, old(Snapshot()), input)
    {
      var alias := host.resolve(handler, input);
      if alias.Err? {
        return Some(alias.error);
      }
      if alias.value.None? {
        var words := Text.JavaSplit(input, " ");
        if |words| == 0 {
          return Some(Raise(ArrayIndexOutOfBounds, "0"));
        }
        return Some(Raise(NullPointer, "Command \"" + words[0] + "\" has no alias"));
      }
      var a := alias.value.value;
      var args := FormatLine(a.args, ramVars, fileVars);
      if args.Err? {
        return Some(args.error);
      }
      var response := host.run(namespace + a.excm + ".excm", args.value);
      if response.Err? {
        return Some(Raise(FileNotFound, "EXCM \"" + a.excm + "\" was not found"));
      }
      if response.value != [] {
        out := out + [response.value];
      }
      return None;
    }

    /** The path defaulting at the start of `Run`; returns the exception that escapes `Run`. */
    method ApplyDefaults(script: string) returns (escaped: Option<Thrown>)
      modifies this`handler, this`namespace, this`variables
      ensures Outcome(Snapshot(), escaped) == Defaults(host, old(Snapshot()), script)
    {
      if handler == [] {
        var folder := host.folderName(script);
        if folder.None? {
          return Some(Thrown(NullPointer, None));
        }
        if folder.value == script {
          namespace := "excm/";
          handler := "handler.exch";
        } else {
          namespace := folder.value + "excm/";
          handler := folder.value + "Handler.exch";
        }
      }
      if variables == [] {
        var folder := host.folderName(script);
        if folder.None? {
          return Some(Thrown(NullPointer, None));
        }
        if folder.value == script {
          variables := "variables.exvr";
        } else {
          variables := folder.value + "variables.exvr";
        }
      }
      return None;
    }

    /**
     * `EXMY.Run`: fills in empty paths from the script's folder, then
     * handles the lines of the script (`None` when it cannot be opened).
     * Returns the exception that escapes.
     */
    method Run(script: string, lines: Option<seq<string>>) returns (escaped: Option<Thrown>)
      modifies this
      ensures var d := Defaults(host, old(Snapshot()), script);
        if d.error.Some? then escaped == d.error && Snapshot() == d.m
        else if lines.None? then
          escaped == None
          && Snapshot() == d.m.(out := d.m.out + ["Exception: " + Show(Raise(FileNotFound, script + " (No such file or directory)"))])
        else
          escaped == None && source == lines.value && cursor == |source|
          && Snapshot() == RunLines(host, lines.value, d.m, 0)
    {
      escaped := ApplyDefaults(script);
      if escaped.Some? {
        return;
      }
      if lines.None? {
        out := out + ["Exception: " + Show(Raise(FileNotFound, script + " (No such file or directory)"))];
        return None;
      }
      source, cursor := lines.value, 0;
      ghost var target := RunLines(host, source, Snapshot(), 0);
      while cursor < |source|
        invariant source == lines.value && cursor <= |source|
        invariant RunLines(host, source, Snapshot(), cursor) == target
        decreases |source| - cursor
      {
        ghost var before, at := Snapshot(), cursor;
        var next := NextLine();
        assert Snapshot() == before;
        Handle(next.value);
        RunContinues(host, source, before, at, Progress(Snapshot(), cursor));
      }
      return None;
    }
  }
}

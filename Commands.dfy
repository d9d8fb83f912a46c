/**
 * The command module: a registry of four commands (MD5, SHA1, SHA256 and
 * ToArgs), filled once by `Initialize`, looked up by name or alias with
 * `Find`, and the text helpers it uses: `FormatInfo`, which describes a
 * command, and the ToArgs command, which renders its arguments as a
 * bracketed list of quoted strings.
 */
module Commands {
  import opened Wrappers
  import opened Jvm
  import Text

  /** What running a command does; only `Arguments` (ToArgs) is modelled beyond its help text. */
  datatype Action = Md5 | Sha1 | Sha256 | Arguments

  /** A command as the registry holds it: its name, its alias set, its description and its code. */
  datatype Command = Command(name: string, aliases: set<string>, description: string, action: Action)

  /** What a command's code returns: whether it succeeded and its (possibly null) response text. */
  datatype FunctionResponse = FunctionResponse(success: bool, response: Option<string>)

  /** The message `Find` throws with when nothing matches. */
  const NotFound := "No command with the specified alias was found."

  const Md5Command := Command("MD5", {"messagedigest5"}, "Computes the MD5 hash of a string or file", Md5)
  const Sha1Command := Command("SHA1", {"securehashalgorithm1"}, "Computes the SHA1 hash of a string or file", Sha1)
  const Sha256Command := Command("SHA256", {"securehashalgorithm256"}, "Computes the SHA256 hash of a string or file", Sha256)
  /** Its description keeps the misspelling of the original table. */
  const ToArgsCommand := Command("ToArgs", {"toarguments"}, "Coneverts a string to an array of command-line-like arguments", Arguments)

  /** The commands `Initialize` adds, in order. */
  function Table(): seq<Command>
  {
    [Md5Command, Sha1Command, Sha256Command, ToArgsCommand]
  }

  /** The state `Initialize` leaves: the table when it has not run yet, otherwise what was there. */
  function AfterInitialize(list: Option<seq<Command>>, initialized: bool): (r: (Option<seq<Command>>, bool))
  {
    if initialized then (list, true) else (Some(Table()), true)
  }

  /** A second `Initialize` changes nothing. */
  lemma InitializeIdempotent(list: Option<seq<Command>>, initialized: bool)
    ensures var once := AfterInitialize(list, initialized);
      AfterInitialize(once.0, once.1) == once
    ensures !initialized ==> AfterInitialize(list, initialized).0 == Some(Table())
  {
  }

  // Lookup.

  /** A command answers to the lower-cased query `q`: its lower-cased name is `q`, or `q` is one of its aliases as stored. */
  predicate Matches(x: Command, q: string)
  {
    Text.LowerStr(x.name) == q || q in x.aliases
  }

  /** The search loop of `Find` from `list[i]` on. */
  function FindFrom(list: seq<Command>, q: string, i: nat): Result<Command, Thrown>
    requires i <= |list|
    decreases |list| - i
  {
    if i == |list| then Err(Raise(InvalidCommand, NotFound))
    else if Matches(list[i], q) then Ok(list[i])
    else FindFrom(list, q, i + 1)
  }

  /** `Find` over a list: the query is lower-cased, then the first command answering to it is returned. */
  function FindIn(list: seq<Command>, alias: string): Result<Command, Thrown>
  {
    FindFrom(list, Text.LowerStr(alias), 0)
  }

  /** The search finds the first command from `i` on that answers to `q`, and throws exactly when none does. */
  lemma {:induction false} FindFromMeaning(list: seq<Command>, q: string, i: nat)
    requires i <= |list|
    ensures FindFrom(list, q, i).Ok? <==> exists j :: i <= j < |list| && Matches(list[j], q)
    ensures FindFrom(list, q, i).Ok? ==>
      exists j :: (i <= j < |list| && list[j] == FindFrom(list, q, i).value
        && Matches(list[j], q) && forall k :: i <= k < j ==> !Matches(list[k], q))
    ensures FindFrom(list, q, i).Err? ==> FindFrom(list, q, i).error == Raise(InvalidCommand, NotFound)
    decreases |list| - i
  {
    if i < |list| && !Matches(list[i], q) {
      FindFromMeaning(list, q, i + 1);
    }
  }

  /** `Find` returns the first command whose lower-cased name is the lower-cased alias or that has it as an alias, and throws `InvalidCommandException` when there is none. */
  lemma FindMeaning(list: seq<Command>, alias: string)
    ensures FindIn(list, alias).Ok? <==> exists j :: 0 <= j < |list| && Matches(list[j], Text.LowerStr(alias))
    ensures FindIn(list, alias).Ok? ==>
      exists j :: (0 <= j < |list| && list[j] == FindIn(list, alias).value
        && Matches(list[j], Text.LowerStr(alias)) && forall k :: 0 <= k < j ==> !Matches(list[k], Text.LowerStr(alias)))
    ensures FindIn(list, alias).Err? ==> FindIn(list, alias).error == Raise(InvalidCommand, NotFound)
  {
    FindFromMeaning(list, Text.LowerStr(alias), 0);
  }

  lemma LowerTwice(s: string)
    ensures Text.LowerStr(Text.LowerStr(s)) == Text.LowerStr(s)
  {
    assert forall i :: 0 <= i < |s| ==> Text.Lower(Text.Lower(s[i])) == Text.Lower(s[i]);
  }

  /** The query's case does not matter: looking up the lower-cased alias gives the same result. */
  lemma FindIgnoresCase(list: seq<Command>, alias: string)
    ensures FindIn(list, Text.LowerStr(alias)) == FindIn(list, alias)
  {
    LowerTwice(alias);
  }

  /** An alias stored with an upper-case letter is never equal to a lower-cased query, so it can never be found through. */
  lemma UpperAliasUnreachable(a: string, alias: string, i: int)
    requires 0 <= i < |a| && 'A' <= a[i] <= 'Z'
    ensures Text.LowerStr(alias) != a
  {
    if |Text.LowerStr(alias)| == |a| {
      assert Text.LowerStr(alias)[i] != a[i];
    }
  }

  /** A string without upper-case ASCII letters is its own lower case. */
  lemma LowerOfLower(s: string)
    requires forall i :: 0 <= i < |s| ==> !('A' <= s[i] <= 'Z')
    ensures Text.LowerStr(s) == s
  {
  }

  /** After `Initialize`, MD5 is found by its name in lower case and by its alias. */
  lemma FindMd5()
    ensures FindIn(Table(), "md5") == Ok(Md5Command)
    ensures FindIn(Table(), "messagedigest5") == Ok(Md5Command)
  {
    LowerOfLower("md5");
    LowerOfLower("messagedigest5");
    assert Text.LowerStr("MD5") == "md5";
  }

  /** After `Initialize`, SHA1 is found by its name in mixed case and by its alias. */
  lemma FindSha1()
    ensures FindIn(Table(), "Sha1") == Ok(Sha1Command)
    ensures FindIn(Table(), "securehashalgorithm1") == Ok(Sha1Command)
  {
    assert Text.LowerStr("Sha1") == "sha1";
    LowerOfLower("securehashalgorithm1");
    assert Text.LowerStr("SHA1") == "sha1";
    assert Text.LowerStr("MD5") == "md5";
  }

  /** After `Initialize`, SHA256 is found by its name as written and by its alias. */
  lemma FindSha256()
    ensures FindIn(Table(), "SHA256") == Ok(Sha256Command)
    ensures FindIn(Table(), "securehashalgorithm256") == Ok(Sha256Command)
  {
    assert Text.LowerStr("SHA256") == "sha256";
    LowerOfLower("securehashalgorithm256");
    assert Text.LowerStr("SHA1") == "sha1";
    assert Text.LowerStr("MD5") == "md5";
  }

  /** After `Initialize`, ToArgs is found by its name in lower case and by its alias. */
  lemma FindToArgs()
    ensures FindIn(Table(), "toargs") == Ok(ToArgsCommand)
    ensures FindIn(Table(), "toarguments") == Ok(ToArgsCommand)
  {
    LowerOfLower("toargs");
    LowerOfLower("toarguments");
    assert Text.LowerStr("ToArgs") == "toargs";
    assert Text.LowerStr("SHA256") == "sha256";
    assert Text.LowerStr("SHA1") == "sha1";
    assert Text.LowerStr("MD5") == "md5";
  }

  /** After `Initialize`, a prefix of a name is not a name: looking it up throws. */
  lemma FindPrefixFails()
    ensures FindIn(Table(), "sha") == Err(Raise(InvalidCommand, NotFound))
  {
    LowerOfLower("sha");
    assert Text.LowerStr("ToArgs") == "toargs";
    assert Text.LowerStr("SHA256") == "sha256";
    assert Text.LowerStr("SHA1") == "sha1";
    assert Text.LowerStr("MD5") == "md5";
  }

  /** The static state of the module: the command list (null until `Initialize`) and the flag that guards it. */
  class Registry {
    var list: Option<seq<Command>>
    var initialized: bool

    constructor ()
      ensures list == None && !initialized
    {
      list := None;
      initialized := false;
    }

    /** Fills the list with the four commands, unless that was done before. */
    method Initialize()
      modifies this
      ensures (list, initialized) == AfterInitialize(old(list), old(initialized))
    {
      if !initialized {
        list := Some(Table());
        initialized := true;
      }
    }

    /**
     * `Find` on the module's list: a null list throws `NullPointerException`
     * before any comparison; otherwise the first command answering to the
     * lower-cased alias, or `InvalidCommandException` when none does.
     */
    function Find(alias: string): (r: Result<Command, Thrown>)
      reads this
      ensures list.None? ==> r == Err(Thrown(NullPointer, None))
      ensures list.Some? ==> (r.Ok? <==> exists j :: 0 <= j < |list.value| && Matches(list.value[j], Text.LowerStr(alias)))
      ensures r.Ok? ==> list.Some? && exists j :: (0 <= j < |list.value| && list.value[j] == r.value
        && Matches(list.value[j], Text.LowerStr(alias)) && forall k :: 0 <= k < j ==> !Matches(list.value[k], Text.LowerStr(alias)))
      ensures list.Some? && r.Err? ==> r.error == Raise(InvalidCommand, NotFound)
    {
      match list
      case None => Err(Thrown(NullPointer, None))
      case Some(l) => FindMeaning(l, alias); FindIn(l, alias)
    }
  }

  // FormatInfo.

  /** A name or description as shown: "N/A" when it is null or empty. */
  function OrNA(s: Option<string>): string
  {
    if s.Some? && |s.value| > 0 then s.value else "N/A"
  }

  /** The aliases as shown: joined by ", ", or "N/A" when the list is null or empty. */
  function AliasText(aliases: Option<seq<string>>): string
  {
    if aliases.None? || |aliases.value| == 0 then "N/A" else Text.Join(aliases.value, ", ")
  }

  /** The three lines `FormatInfo` writes. */
  function Info(name: Option<string>, aliases: Option<seq<string>>, description: Option<string>): string
  {
    "Name: " + OrNA(name) + "\nDescription: " + OrNA(description) + "\nAliases: " + AliasText(aliases)
  }

  /** The builder loop of `FormatInfo`. */
  method FormatInfo(name: Option<string>, aliases: Option<seq<string>>, description: Option<string>) returns (s: string)
    ensures s == Info(name, aliases, description)
  {
    s := "Name: ";
    s := s + (if name.Some? && |name.value| > 0 then name.value else "N/A");
    s := s + "\nDescription: ";
    s := s + (if description.Some? && |description.value| > 0 then description.value else "N/A");
    s := s + "\nAliases: ";
    var first := true;
    if aliases.None? || |aliases.value| == 0 {
      s := s + "N/A";
    } else {
      var als := aliases.value;
      ghost var head := s;
      for i := 0 to |als|
        invariant first <==> i == 0
        invariant i > 0 ==> s == head + Text.Join(als[..i], ", ")
        invariant i == 0 ==> s == head
      {
        if first {
          first := false;
        } else {
          s := s + ", ";
        }
        s := s + als[i];
        if i > 0 {
          Text.JoinSnoc(als[..i], als[i], ", ");
        }
        assert als[..i + 1] == als[..i] + [als[i]];
      }
      assert als[..|als|] == als;
    }
  }

  /**
   * When no field holds a newline, the text splits at newlines into its
   * three labelled lines, and when no alias holds a comma the alias line
   * splits at ", " back into the aliases.
   */
  lemma InfoLines(name: Option<string>, aliases: Option<seq<string>>, description: Option<string>)
    requires name.Some? ==> '\n' !in name.value
    requires description.Some? ==> '\n' !in description.value
    requires aliases.Some? ==> forall k :: 0 <= k < |aliases.value| ==> '\n' !in aliases.value[k]
    ensures Text.Split(Info(name, aliases, description), "\n")
      == ["Name: " + OrNA(name), "Description: " + OrNA(description), "Aliases: " + AliasText(aliases)]
  {
    InfoShape(name, aliases, description);
    assert '\n' !in AliasText(aliases) by {
      if aliases.Some? && |aliases.value| > 0 {
        Text.JoinMembers(aliases.value, ", ", '\n');
      }
    }
    ThreeLines("Name: " + OrNA(name), "Description: " + OrNA(description), "Aliases: " + AliasText(aliases));
  }

  /** The info text is its three lines joined by newlines. */
  lemma InfoShape(name: Option<string>, aliases: Option<seq<string>>, description: Option<string>)
    ensures Info(name, aliases, description)
      == ("Name: " + OrNA(name)) + "\n" + (("Description: " + OrNA(description)) + "\n" + ("Aliases: " + AliasText(aliases)))
  {
    assert "\nDescription: " == "\n" + "Description: ";
    assert "\nAliases: " == "\n" + "Aliases: ";
    Regroup("Name: ", OrNA(name), "Description: ", OrNA(description), "Aliases: ", AliasText(aliases));
  }

  /** Three lines without newlines, joined by newlines, split back into themselves. */
  lemma ThreeLines(a: string, b: string, c: string)
    requires '\n' !in a && '\n' !in b && '\n' !in c
    ensures Text.Split(a + "\n" + (b + "\n" + c), "\n") == [a, b, c]
  {
    Text.SingleUnique('\n');
    Text.SplitFirst(a, b + "\n" + c, "\n", '\n', 0);
    Text.SplitFirst(b, c, "\n", '\n', 0);
    Text.SplitFree(c, "\n", '\n', 0);
  }

  lemma Regroup(p: string, n: string, q: string, d: string, r: string, al: string)
    ensures p + n + ("\n" + q) + d + ("\n" + r) + al == (p + n) + "\n" + ((q + d) + "\n" + (r + al))
  {
  }

  /** The aliases come back from their line when none holds a comma. */
  lemma AliasesBack(aliases: seq<string>)
    requires |aliases| > 0
    requires forall k :: 0 <= k < |aliases| ==> ',' !in aliases[k]
    ensures Text.Split(AliasText(Some(aliases)), ", ") == aliases
  {
    Text.SplitJoin(aliases, ", ", ',', 0);
  }

  // The ToArgs command.

  /** The description its help text shows (spelled correctly there, unlike in the table). */
  const ToArgsDescription := "Converts a string to an array of command-line-like arguments"

  /** What follows the info block in the help text. */
  const ToArgsUsage := "\n\nArguments: \n[STRING]\n    Converts [STRING] to an array of command-line-like arguments\n--help, -h\n    Shows information about the command"

  function Quoted(args: seq<string>): (r: seq<string>)
    ensures |r| == |args|
  {
    seq(|args|, i requires 0 <= i < |args| => "\"" + args[i] + "\"")
  }

  /** The arguments in brackets, each in quotes, separated by ", ", then a newline. */
  function Rendered(args: seq<string>): string
  {
    "[" + Text.Join(Quoted(args), ", ") + "]\n"
  }

  /** What the ToArgs code returns for its arguments. */
  function ToArgsResult(args: seq<string>): FunctionResponse
  {
    if |args| == 0 then FunctionResponse(false, Some(DecimalString(0)))
    else if Text.LowerStr(args[0]) in {"-h", "--help"} then
      FunctionResponse(true, Some(Info(Some("ToArgs"), None, Some(ToArgsDescription)) + ToArgsUsage))
    else FunctionResponse(true, Some(Rendered(args)))
  }

  /**
   * The ToArgs code: the first argument, lower-cased, selects the help text;
   * otherwise a builder loop writes the quoted arguments. With no arguments,
   * reading the first one throws `ArrayIndexOutOfBoundsException`, whose
   * message the catch block returns as a failure.
   */
  method ToArgs(args: seq<string>) returns (r: FunctionResponse)
    ensures r == ToArgsResult(args)
  {
    if |args| == 0 {
      return FunctionResponse(false, Some(DecimalString(0)));
    }
    var lwr := Text.LowerStr(args[0]);
    if lwr == "-h" || lwr == "--help" {
      var info := FormatInfo(Some("ToArgs"), None, Some(ToArgsDescription));
      return FunctionResponse(true, Some(info + ToArgsUsage));
    }
    var res := "[";
    var first := true;
    for i := 0 to |args|
      invariant first <==> i == 0
      invariant res == "[" + Text.Join(Quoted(args[..i]), ", ")
    {
      if first {
        first := false;
      } else {
        res := res + ", ";
      }
      res := res + "\"" + args[i] + "\"";
      assert Quoted(args[..i + 1]) == Quoted(args[..i]) + ["\"" + args[i] + "\""];
      if i > 0 {
        Text.JoinSnoc(Quoted(args[..i]), "\"" + args[i] + "\"", ", ");
      }
    }
    assert args[..|args|] == args;
    res := res + "]\n";
    return FunctionResponse(true, Some(res));
  }

  // Reading the rendering back.

  /** The text before the first quote of `t` and the text after it, if `t` has a quote. */
  function UntilQuote(t: string): (r: Option<(string, string)>)
    ensures r.Some? ==> |r.value.0| + 1 + |r.value.1| == |t|
  {
    if t == [] then None
    else if t[0] == '"' then Some(([], t[1..]))
    else match UntilQuote(t[1..])
      case None => None
      case Some(p) => Some(([t[0]] + p.0, p.1))
  }

  /** Reads `"a", "b", ...` with no text after the last quote. */
  function ParseItems(t: string): Option<seq<string>>
    decreases |t|
  {
    if |t| == 0 || t[0] != '"' then None
    else match UntilQuote(t[1..])
      case None => None
      case Some(p) =>
        if p.1 == [] then Some([p.0])
        else if |p.1| >= 2 && p.1[..2] == ", " then
          match ParseItems(p.1[2..])
          case None => None
          case Some(xs) => Some([p.0] + xs)
        else None
  }

  /** Reads a ToArgs rendering back into its arguments. */
  function ParseArgs(s: string): Option<seq<string>>
  {
    if |s| >= 3 && s[0] == '[' && s[|s| - 2..] == "]\n" then
      var body := s[1..|s| - 2];
      if body == [] then Some([]) else ParseItems(body)
    else None
  }

  lemma {:induction false} UntilQuoteOf(a: string, rest: string)
    requires '"' !in a
    ensures UntilQuote(a + "\"" + rest) == Some((a, rest))
    decreases |a|
  {
    if a != [] {
      assert (a + "\"" + rest)[1..] == a[1..] + "\"" + rest;
      UntilQuoteOf(a[1..], rest);
      assert [a[0]] + a[1..] == a;
    } else {
      assert a + "\"" + rest == "\"" + rest;
    }
  }

  lemma {:induction false} ItemsBack(args: seq<string>)
    requires |args| > 0
    requires forall k :: 0 <= k < |args| ==> '"' !in args[k]
    ensures ParseItems(Text.Join(Quoted(args), ", ")) == Some(args)
    decreases |args|
  {
    var q := Quoted(args);
    var t := Text.Join(q, ", ");
    var rest := if |args| == 1 then "" else ", " + Text.Join(Quoted(args[1..]), ", ");
    if |args| > 1 {
      assert q[1..] == Quoted(args[1..]);
    }
    assert t == "\"" + args[0] + "\"" + rest;
    assert t[1..] == args[0] + "\"" + rest;
    UntilQuoteOf(args[0], rest);
    assert UntilQuote(t[1..]) == Some((args[0], rest));
    if |args| > 1 {
      ItemsBack(args[1..]);
      assert rest[..2] == ", " && rest[2..] == Text.Join(Quoted(args[1..]), ", ");
      assert [args[0]] + args[1..] == args;
    } else {
      assert [args[0]] == args;
    }
  }

  /** A rendering of arguments without quote characters reads back as those arguments. */
  lemma RenderedBack(args: seq<string>)
    requires forall k :: 0 <= k < |args| ==> '"' !in args[k]
    ensures ParseArgs(Rendered(args)) == Some(args)
  {
    var s := Rendered(args);
    var body := Text.Join(Quoted(args), ", ");
    assert s[1..|s| - 2] == body;
    assert s[|s| - 2..] == "]\n";
    if |args| > 0 {
      ItemsBack(args);
      assert body[0] == '"';
    }
  }

  /** ToArgs, given arguments it does not take for a help request, succeeds with a rendering that reads back as its arguments. */
  lemma ToArgsRoundTrip(args: seq<string>)
    requires |args| > 0 && Text.LowerStr(args[0]) !in {"-h", "--help"}
    requires forall k :: 0 <= k < |args| ==> '"' !in args[k]
    ensures ToArgsResult(args).success && ToArgsResult(args).response.Some?
    ensures ParseArgs(ToArgsResult(args).response.value) == Some(args)
  {
    RenderedBack(args);
  }
}

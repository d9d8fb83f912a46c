/**
 * `Exom.Utils.StringUtils`: reversing, trimming spaces and tabs, and the
 * two command-line tokenisers `ToArgs` and (the older) `ToCmdArgs`.
 * A Java `null` string is `None`.
 */
module StringUtils {
  import opened Wrappers
  import opened Jvm
  import Text

  /** `new StringBuilder(data).reverse().toString()` (no surrogate pairs). */
  function Reverse(s: string): (r: string)
    ensures |r| == |s|
    ensures forall i :: 0 <= i < |s| ==> r[i] == s[|s| - 1 - i]
  {
    if s == [] then [] else Reverse(s[1..]) + [s[0]]
  }

  lemma ReverseReverse(s: string)
    ensures Reverse(Reverse(s)) == s
  {
    var r := Reverse(Reverse(s));
    assert forall i :: 0 <= i < |s| ==> r[i] == s[i];
  }

  // ---------------------------------------------------------------- Trim

  predicate Blank(c: char) { c == ' ' || c == '\t' }

  /** Where `Trim`'s first loop stops: the length of the blank prefix. */
  function FirstKept(s: string): (k: nat)
    ensures k <= |s|
  {
    if |s| > 0 && Blank(s[0]) then 1 + FirstKept(s[1..]) else 0
  }

  /** Where `Trim`'s second loop stops: the length without the blank suffix. */
  function LastKept(s: string): (k: nat)
    ensures k <= |s|
  {
    if |s| > 0 && Blank(s[|s| - 1]) then LastKept(s[..|s| - 1]) else |s|
  }

  /** The first loop skips blanks only, and stops at the first non-blank. */
  lemma {:induction false} FirstKeptMeaning(s: string)
    ensures forall i :: 0 <= i < FirstKept(s) ==> Blank(s[i])
    ensures FirstKept(s) < |s| ==> !Blank(s[FirstKept(s)])
  {
    if |s| > 0 && Blank(s[0]) {
      FirstKeptMeaning(s[1..]);
      assert forall i :: 1 <= i < FirstKept(s) ==> s[i] == s[1..][i - 1];
    }
  }

  /** The second loop skips blanks only, and stops after the last non-blank. */
  lemma {:induction false} LastKeptMeaning(s: string)
    ensures forall i :: LastKept(s) <= i < |s| ==> Blank(s[i])
    ensures LastKept(s) > 0 ==> !Blank(s[LastKept(s) - 1])
  {
    if |s| > 0 && Blank(s[|s| - 1]) {
      LastKeptMeaning(s[..|s| - 1]);
      assert forall i :: LastKept(s) <= i < |s| - 1 ==> s[i] == s[..|s| - 1][i];
    }
  }

  /**
   * What `Trim` does with a non-null string. Both loops run over the whole
   * string, so on a non-empty all-blank string the start passes the end and
   * `substring` throws.
   */
  function Trimmed(s: string): Result<string, Thrown>
  {
    var a, b := FirstKept(s), LastKept(s);
    KeptBounds(s);
    Substring(s, a, b)
  }

  /**
   * What trimming gives: an error exactly for a non-empty all-blank
   * string, otherwise a slice of `s` with only blanks cut off either side
   * and none left at its ends.
   */
  lemma TrimmedMeaning(s: string)
    ensures Trimmed(s).Err? <==> |s| > 0 && forall i :: 0 <= i < |s| ==> Blank(s[i])
    ensures Trimmed(s).Err? ==> Trimmed(s).error == Raise(StringIndexOutOfBounds, IndexMessage(-|s|))
    ensures Trimmed(s).Ok? ==> exists a, b :: 0 <= a <= b <= |s| && Trimmed(s).value == s[a..b]
                                 && (forall i :: 0 <= i < a ==> Blank(s[i]))
                                 && (forall i :: b <= i < |s| ==> Blank(s[i]))
    ensures Trimmed(s).Ok? && Trimmed(s).value != [] ==>
      !Blank(Trimmed(s).value[0]) && !Blank(Trimmed(s).value[|Trimmed(s).value| - 1])
  {
    KeptBounds(s);
    FirstKeptMeaning(s);
    LastKeptMeaning(s);
    var a, b := FirstKept(s), LastKept(s);
    if a <= b {
      assert Trimmed(s).value == s[a..b];
    }
  }

  lemma KeptBounds(s: string)
    ensures FirstKept(s) > LastKept(s) <==> |s| > 0 && forall i :: 0 <= i < |s| ==> Blank(s[i])
    ensures FirstKept(s) > LastKept(s) ==> FirstKept(s) == |s| && LastKept(s) == 0
    ensures FirstKept(s) < LastKept(s) ==> !Blank(s[FirstKept(s)])
  {
    FirstKeptMeaning(s);
    LastKeptMeaning(s);
  }

  /**
   * `StringUtils.Trim`: `null` gives `null`; otherwise two index loops and a
   * `substring`.
   */
  method Trim(data: Option<string>) returns (r: Result<Option<string>, Thrown>)
    ensures data.None? ==> r == Ok(None)
    ensures data.Some? ==> match Trimmed(data.value)
                           case Ok(t) => r == Ok(Some(t))
                           case Err(e) => r == Err(e)
  {
    if data.None? {
      return Ok(None);
    }
    var s := data.value;
    var startIndex := 0;
    var endIndex := |s|;
    while startIndex < |s| && (s[startIndex] == ' ' || s[startIndex] == '\t')
      invariant 0 <= startIndex <= |s|
      invariant forall i :: 0 <= i < startIndex ==> Blank(s[i])
    {
      startIndex := startIndex + 1;
    }
    while endIndex > 0 && (s[endIndex - 1] == ' ' || s[endIndex - 1] == '\t')
      invariant 0 <= endIndex <= |s|
      invariant forall i :: endIndex <= i < |s| ==> Blank(s[i])
    {
      endIndex := endIndex - 1;
    }
    assert startIndex == FirstKept(s) by { StopsAtFirstKept(s, startIndex); }
    assert endIndex == LastKept(s) by { StopsAtLastKept(s, endIndex); }
    var t := Substring(s, startIndex, endIndex);
    match t
    case Ok(v) => r := Ok(Some(v));
    case Err(e) => r := Err(e);
  }

  lemma {:induction false} StopsAtFirstKept(s: string, k: nat)
    requires k <= |s| && (forall i :: 0 <= i < k ==> Blank(s[i])) && (k < |s| ==> !Blank(s[k]))
    ensures k == FirstKept(s)
  {
    if k > 0 {
      StopsAtFirstKept(s[1..], k - 1);
    }
  }

  lemma {:induction false} StopsAtLastKept(s: string, k: nat)
    requires k <= |s| && (forall i :: k <= i < |s| ==> Blank(s[i])) && (k > 0 ==> !Blank(s[k - 1]))
    ensures k == LastKept(s)
  {
    if k < |s| {
      StopsAtLastKept(s[..|s| - 1], k);
    }
  }

  /** Trimming twice gives what trimming once gives. */
  lemma TrimIdempotent(s: string)
    requires Trimmed(s).Ok?
    ensures Trimmed(Trimmed(s).value) == Trimmed(s)
  {
    TrimmedMeaning(s);
    var t := Trimmed(s).value;
    if t != [] {
      StopsAtFirstKept(t, 0);
      StopsAtLastKept(t, |t|);
    }
    KeptBounds(t);
    assert t[0..|t|] == t;
  }

  // ------------------------------------------------------ ToArgs, ToCmdArgs

  /** The tokeniser's state: finished tokens, the current token, `quoteCount`. */
  datatype Scan = Scan(fin: seq<string>, tmp: string, quotes: int)

  const Initial := Scan([], "", 0)

  /**
   * The effect of one character that is not the start of `\"`. `cmd`
   * selects `ToCmdArgs`, whose only difference is the quote seen inside
   * quotes with an empty token: it increments `quoteCount` where `ToArgs`
   * decrements it.
   */
  function CharStep(st: Scan, c: char, cmd: bool): Scan
  {
    if c == '"' then
      if st.quotes > 0 then
        if |st.tmp| > 0 then st.(quotes := st.quotes - 2)
        else if cmd then st.(quotes := st.quotes + 1)
        else st.(quotes := st.quotes - 1)
      else st.(quotes := st.quotes + 1)
    else if st.quotes > 0 then st.(tmp := st.tmp + [c])
    else if c == ' ' then Scan(st.fin + [st.tmp], "", st.quotes)
    else st.(tmp := st.tmp + [c])
  }

  /** `ToArgs` reads `\"` as a literal quote, two characters at once. */
  predicate EscapedQuoteAt(s: string, u: nat)
  {
    u + 1 < |s| && s[u] == '\\' && s[u + 1] == '"'
  }

  /** The state after scanning `s[u..]` from state `st`. */
  function ScanFrom(s: string, u: nat, st: Scan, cmd: bool): Scan
    decreases |s| - u
  {
    if u >= |s| then st
    else if !cmd && EscapedQuoteAt(s, u) then ScanFrom(s, u + 2, st.(tmp := st.tmp + "\""), cmd)
    else ScanFrom(s, u + 1, CharStep(st, s[u], cmd), cmd)
  }

  /** The tokens after the loop: a non-empty current token is added. */
  function Close(st: Scan): seq<string>
  {
    if |st.tmp| > 0 then st.fin + [st.tmp] else st.fin
  }

  function Args(s: string, cmd: bool): seq<string>
  {
    Close(ScanFrom(s, 0, Initial, cmd))
  }

  /** `StringUtils.ToArgs`. */
  method ToArgs(args: string) returns (r: seq<string>)
    ensures r == Args(args, false)
  {
    var fin: seq<string> := [];
    var quoteCount := 0;
    var tmp := "";
    var u := 0;
    while u < |args|
      invariant 0 <= u <= |args|
      invariant ScanFrom(args, u, Scan(fin, tmp, quoteCount), false) == ScanFrom(args, 0, Initial, false)
      decreases |args| - u
    {
      var c := args[u];
      if c == '\\' && u < |args| - 1 && args[u + 1] == '"' {
        tmp := tmp + "\"";
        u := u + 2;
        continue;
      }
      if c == '"' {
        if quoteCount > 0 {
          if |tmp| > 0 {
            quoteCount := quoteCount - 2;
          } else {
            quoteCount := quoteCount - 1;
          }
        } else {
          quoteCount := quoteCount + 1;
        }
      } else if quoteCount > 0 {
        tmp := tmp + [c];
      } else if c == ' ' {
        fin := fin + [tmp];
        tmp := "";
      } else {
        tmp := tmp + [c];
      }
      u := u + 1;
    }
    if |tmp| > 0 {
      fin := fin + [tmp];
    }
    r := fin;
  }

  /** `StringUtils.ToCmdArgs`: no `\"` escape, and the quote quirk of `CharStep`. */
  method ToCmdArgs(args: string) returns (r: seq<string>)
    ensures r == Args(args, true)
  {
    var fin: seq<string> := [];
    var quoteCount := 0;
    var tmp := "";
    for u := 0 to |args|
      invariant ScanFrom(args, u, Scan(fin, tmp, quoteCount), true) == ScanFrom(args, 0, Initial, true)
    {
      var c := args[u];
      if c == '"' {
        if quoteCount > 0 {
          if |tmp| > 0 {
            quoteCount := quoteCount - 2;
          } else {
            quoteCount := quoteCount + 1;
          }
        } else {
          quoteCount := quoteCount + 1;
        }
      } else if quoteCount > 0 {
        tmp := tmp + [c];
      } else if c == ' ' {
        fin := fin + [tmp];
        tmp := "";
      } else {
        tmp := tmp + [c];
      }
    }
    if |tmp| > 0 {
      fin := fin + [tmp];
    }
    r := fin;
  }

  predicate Plain(s: string)
  {
    forall i :: 0 <= i < |s| ==> s[i] != '"' && s[i] != '\\'
  }

  lemma SplitAtSpace(r: string)
    requires |r| > 0 && r[0] == ' '
    ensures Text.Split(r, " ") == [[]] + Text.Split(r[1..], " ")
  {
    assert r[..1] == " ";
  }

  lemma SplitAtOther(r: string)
    requires |r| > 0 && r[0] != ' '
    ensures var t := Text.Split(r[1..], " ");
            Text.Split(r, " ") == [[r[0]] + t[0]] + t[1..]
  {
    assert r[..1] != " ";
  }

  lemma TokensAfterSpace(fin: seq<string>, tmp: string, t: seq<string>)
    requires |t| > 0
    ensures (fin + [tmp]) + [[] + t[0]] + t[1..] == fin + [tmp + []] + ([[]] + t)[1..]
  {
    assert [] + t[0] == t[0] && tmp + [] == tmp;
    assert ([[]] + t)[1..] == t == [t[0]] + t[1..];
  }

  lemma TokensAfterChar(fin: seq<string>, tmp: string, c: char, t: seq<string>)
    requires |t| > 0
    ensures fin + [tmp + [c] + t[0]] + t[1..] == fin + [tmp + ([c] + t[0])] + ([[c] + t[0]] + t[1..])[1..]
  {
    assert tmp + [c] + t[0] == tmp + ([c] + t[0]);
    assert ([[c] + t[0]] + t[1..])[1..] == t[1..];
  }

  /** Outside quotes and without quote characters, the scan is a split at spaces. */
  lemma {:induction false} PlainScan(s: string, u: nat, st: Scan, cmd: bool)
    requires u <= |s| && st.quotes <= 0 && Plain(s[u..])
    ensures var e := ScanFrom(s, u, st, cmd);
            var t := Text.Split(s[u..], " ");
            e.fin + [e.tmp] == st.fin + [st.tmp + t[0]] + t[1..]
    decreases |s| - u
  {
    if u < |s| {
      var r := s[u..];
      assert r[0] == s[u] && r[1..] == s[u + 1..];
      assert !EscapedQuoteAt(s, u);
      PlainScan(s, u + 1, CharStep(st, s[u], cmd), cmd);
      var t' := Text.Split(s[u + 1..], " ");
      if s[u] == ' ' {
        SplitAtSpace(r);
        TokensAfterSpace(st.fin, st.tmp, t');
      } else {
        SplitAtOther(r);
        TokensAfterChar(st.fin, st.tmp, s[u], t');
      }
    } else {
      assert s[u..] == [];
      assert st.tmp + [] == st.tmp;
    }
  }

  /**
   * With no quote and no backslash, `ToArgs` splits at every space:
   * consecutive spaces give empty tokens, and only the final token is
   * dropped when it is empty.
   */
  lemma PlainArgsSplit(s: string, cmd: bool)
    requires Plain(s)
    ensures var t := Text.Split(s, " ");
            Args(s, cmd) == if t[|t| - 1] == [] then t[..|t| - 1] else t
  {
    PlainScan(s, 0, Initial, cmd);
    assert s[0..] == s;
    var e := ScanFrom(s, 0, Initial, cmd);
    var t := Text.Split(s, " ");
    assert e.fin + [e.tmp] == [] + [[] + t[0]] + t[1..];
    assert [] + t[0] == t[0];
    assert [] + [t[0]] + t[1..] == t;
    assert e.fin == t[..|t| - 1];
  }

  /** Inside quotes, every character but a quote or backslash, spaces included, joins the current token. */
  lemma {:induction false} QuotedScan(s: string, u: nat, st: Scan, cmd: bool)
    requires u <= |s| && st.quotes > 0 && Plain(s[u..])
    ensures ScanFrom(s, u, st, cmd) == st.(tmp := st.tmp + s[u..])
    decreases |s| - u
  {
    if u < |s| {
      assert s[u..][0] == s[u] && s[u..][1..] == s[u + 1..];
      assert !EscapedQuoteAt(s, u);
      QuotedScan(s, u + 1, CharStep(st, s[u], cmd), cmd);
      assert st.tmp + [s[u]] + s[u + 1..] == st.tmp + s[u..];
    }
  }

  /** A quoted argument is one token, spaces kept and the quotes dropped. */
  lemma QuotedArgument(t: string, cmd: bool)
    requires t != [] && Plain(t)
    ensures Args("\"" + t + "\"", cmd) == [t]
  {
    var s := "\"" + t + "\"";
    var st := Initial.(quotes := 1);
    assert s[0] == '"' && !EscapedQuoteAt(s, 0);
    assert s[1..][..|t|] == t;
    assert forall i :: 0 <= i < |t| ==> s[1..|s| - 1][i] == t[i];
    assert s[1..|s| - 1] == t;
    assert Plain(s[1..|s| - 1]);
    QuotedScanTo(s, 1, |s| - 1, st, cmd);
    assert ScanFrom(s, 0, Initial, cmd) == ScanFrom(s, 1, st, cmd);
    assert st.tmp + t == t;
    assert s[|s| - 1] == '"' && !EscapedQuoteAt(s, |s| - 1);
    assert ScanFrom(s, |s| - 1, st.(tmp := t), cmd) == Scan([], t, -1);
  }

  /** `QuotedScan` stopped before the end of the string. */
  lemma {:induction false} QuotedScanTo(s: string, u: nat, v: nat, st: Scan, cmd: bool)
    requires u <= v <= |s| && st.quotes > 0 && Plain(s[u..v])
    ensures ScanFrom(s, u, st, cmd) == ScanFrom(s, v, st.(tmp := st.tmp + s[u..v]), cmd)
    decreases v - u
  {
    if u < v {
      assert s[u..v][0] == s[u] && s[u..v][1..] == s[u + 1..v];
      assert !EscapedQuoteAt(s, u) by {
        if u + 1 < v { assert s[u..v][1] == s[u + 1]; }
      }
      QuotedScanTo(s, u + 1, v, CharStep(st, s[u], cmd), cmd);
      assert st.tmp + [s[u]] + s[u + 1..v] == st.tmp + s[u..v];
    } else {
      assert s[u..v] == [];
      assert st.(tmp := st.tmp + []) == st;
    }
  }

  /** Without backslashes no token ever holds a quote: bare quotes are never copied. */
  lemma {:induction false} NoQuoteCopied(s: string, u: nat, st: Scan, cmd: bool)
    requires u <= |s| && forall i :: u <= i < |s| ==> s[i] != '\\'
    requires '"' !in st.tmp && forall k :: 0 <= k < |st.fin| ==> '"' !in st.fin[k]
    ensures var e := ScanFrom(s, u, st, cmd);
            '"' !in e.tmp && forall k :: 0 <= k < |e.fin| ==> '"' !in e.fin[k]
    decreases |s| - u
  {
    if u < |s| {
      NoQuoteCopied(s, u + 1, CharStep(st, s[u], cmd), cmd);
    }
  }

  lemma NoQuoteInTokens(s: string, cmd: bool)
    requires forall i :: 0 <= i < |s| ==> s[i] != '\\'
    ensures forall k :: 0 <= k < |Args(s, cmd)| ==> '"' !in Args(s, cmd)[k]
  {
    NoQuoteCopied(s, 0, Initial, cmd);
  }

  /** `\"` puts a quote character into the token. */
  lemma EscapedQuote()
    ensures Args("\\\"", false) == ["\""]
  {
    var s := "\\\"";
    assert |s| == 2 && EscapedQuoteAt(s, 0);
    assert ScanFrom(s, 0, Initial, false) == ScanFrom(s, 2, Initial.(tmp := "\""), false);
  }

  /**
   * The two dialects part on a quote that follows an opening quote: `ToArgs`
   * closes the empty quotation, `ToCmdArgs` nests deeper and keeps the
   * space.
   */
  lemma DialectsDiffer()
    ensures Args("\"\"a b", false) == ["a", "b"]
    ensures Args("\"\"a b", true) == ["a b"]
  {
    var s := "\"\"a b";
    assert s[2] == 'a' && s[3] == ' ' && s[4] == 'b' && |s| == 5;
    assert !EscapedQuoteAt(s, 0) && !EscapedQuoteAt(s, 1) && !EscapedQuoteAt(s, 2) && !EscapedQuoteAt(s, 3);
    assert ScanFrom(s, 0, Initial, false) == ScanFrom(s, 2, Initial, false);
    assert ScanFrom(s, 4, Scan(["a"], "", 0), false) == Scan(["a"], "b", 0);
    assert ScanFrom(s, 3, Scan([], "a", 0), false) == Scan(["a"], "b", 0);
    assert CharStep(Initial, 'a', false) == Scan([], "a", 0);
    assert ScanFrom(s, 2, Initial, false) == ScanFrom(s, 3, Scan([], "a", 0), false);
    assert ScanFrom(s, 0, Initial, true) == ScanFrom(s, 2, Initial.(quotes := 2), true);
    assert ScanFrom(s, 4, Scan([], "a ", 2), true) == Scan([], "a b", 2);
    assert ScanFrom(s, 3, Scan([], "a", 2), true) == Scan([], "a b", 2);
    assert ScanFrom(s, 2, Initial.(quotes := 2), true) == Scan([], "a b", 2);
  }
}

/**
 * The Morse code of the cryptography package: a character table, encoding
 * of text into dots, dashes and separators, and decoding back.
 */
module Morse {
  import opened Wrappers
  import opened Jvm
  import Text

  /** Number of entries the two lookup chains share. */
  const Size := 54

  /** Dots and dashes only. */
  predicate Signals(s: string)
  {
    forall i :: 0 <= i < |s| ==> s[i] == '.' || s[i] == '-'
  }

  /**
   * The code numbered `n`: the binary digits of `n` after its leading 1,
   * a dot for 0 and a dash for 1 (so 5, binary 101, is ".-").
   */
  function Spell(n: nat): (s: string)
    ensures Signals(s)
    ensures n >= 2 ==> |s| >= 1
    decreases n
  {
    if n <= 1 then "" else Spell(n / 2) + (if n % 2 == 0 then "." else "-")
  }

  /**
   * The number of a code: a leading 1, then a binary digit per signal (0
   * for a dot, 1 for a dash); 0 for a string with anything else in it.
   */
  function CodeNumber(s: string): (n: nat)
    decreases |s|
  {
    if s == [] then 1
    else
      var v := CodeNumber(s[..|s| - 1]);
      if v == 0 then 0
      else if s[|s| - 1] == '.' then 2 * v
      else if s[|s| - 1] == '-' then 2 * v + 1
      else 0
  }

  /** Numbering a spelled code gives the number back. */
  lemma {:induction false} NumberSpell(n: nat)
    requires n >= 1
    ensures CodeNumber(Spell(n)) == n
    decreases n
  {
    if n > 1 {
      var q := n / 2;
      var b := if n % 2 == 0 then '.' else '-';
      var s := Spell(q) + [b];
      assert Spell(n) == s;
      assert s[..|s| - 1] == Spell(q) && s[|s| - 1] == b;
      NumberSpell(q);
      assert CodeNumber(s) == 2 * q + (if b == '-' then 1 else 0);
    }
  }

  /** Exactly the strings of dots and dashes have a number, and spelling it gives the string back. */
  lemma {:induction false} SpellNumber(s: string)
    ensures CodeNumber(s) != 0 <==> Signals(s)
    ensures Signals(s) ==> Spell(CodeNumber(s)) == s
    decreases |s|
  {
    if s != [] {
      var p := s[..|s| - 1];
      SpellNumber(p);
      assert Signals(s) <==> Signals(p) && (s[|s| - 1] == '.' || s[|s| - 1] == '-');
      if Signals(s) {
        var b := if s[|s| - 1] == '-' then 1 else 0;
        DivUnique(CodeNumber(s), 2, CodeNumber(p), b);
        assert s == p + [s[|s| - 1]];
      }
    }
  }

  /**
   * The table behind both lookup chains, in the order the chains test
   * it: the 26 letters (keyed by the upper-case letter), the ten digits,
   * then 18 punctuation marks, each with the number of its code (the
   * code itself is in the comment).
   */
  function Key(i: int): char
  {
    match i
    case 0 => 'A'
    case 1 => 'B'
    case 2 => 'C'
    case 3 => 'D'
    case 4 => 'E'
    case 5 => 'F'
    case 6 => 'G'
    case 7 => 'H'
    case 8 => 'I'
    case 9 => 'J'
    case 10 => 'K'
    case 11 => 'L'
    case 12 => 'M'
    case 13 => 'N'
    case 14 => 'O'
    case 15 => 'P'
    case 16 => 'Q'
    case 17 => 'R'
    case 18 => 'S'
    case 19 => 'T'
    case 20 => 'U'
    case 21 => 'V'
    case 22 => 'W'
    case 23 => 'X'
    case 24 => 'Y'
    case 25 => 'Z'
    case 26 => '0'
    case 27 => '1'
    case 28 => '2'
    case 29 => '3'
    case 30 => '4'
    case 31 => '5'
    case 32 => '6'
    case 33 => '7'
    case 34 => '8'
    case 35 => '9'
    case 36 => '.'
    case 37 => ','
    case 38 => '?'
    case 39 => '!'
    case 40 => ':'
    case 41 => '='
    case 42 => '+'
    case 43 => '-'
    case 44 => '\''
    case 45 => '/'
    case 46 => '('
    case 47 => ')'
    case 48 => '&'
    case 49 => ';'
    case 50 => '_'
    case 51 => '"'
    case 52 => '$'
    case 53 => '@'
    case _ => '\0'
  }

  /** The number of the code of entry `i`; the code itself is in the comment. */
  function Code(i: int): nat
  {
    match i
    case 0 => 5     // .-
    case 1 => 24    // -...
    case 2 => 26    // -.-.
    case 3 => 12    // -..
    case 4 => 2     // .
    case 5 => 18    // ..-.
    case 6 => 14    // --.
    case 7 => 16    // ....
    case 8 => 4     // ..
    case 9 => 23    // .---
    case 10 => 13   // -.-
    case 11 => 20   // .-..
    case 12 => 7    // --
    case 13 => 6    // -.
    case 14 => 15   // ---
    case 15 => 22   // .--.
    case 16 => 29   // --.-
    case 17 => 10   // .-.
    case 18 => 8    // ...
    case 19 => 3    // -
    case 20 => 9    // ..-
    case 21 => 17   // ...-
    case 22 => 11   // .--
    case 23 => 25   // -..-
    case 24 => 27   // -.--
    case 25 => 28   // --..
    case 26 => 63   // -----
    case 27 => 47   // .----
    case 28 => 39   // ..---
    case 29 => 35   // ...--
    case 30 => 33   // ....-
    case 31 => 32   // .....
    case 32 => 48   // -....
    case 33 => 56   // --...
    case 34 => 60   // ---..
    case 35 => 62   // ----.
    case 36 => 85   // .-.-.-
    case 37 => 115  // --..--
    case 38 => 76   // ..--..
    case 39 => 107  // -.-.--
    case 40 => 120  // ---...
    case 41 => 49   // -...-
    case 42 => 42   // .-.-.
    case 43 => 97   // -....-
    case 44 => 94   // .----.
    case 45 => 50   // -..-.
    case 46 => 54   // -.--.
    case 47 => 109  // -.--.-
    case 48 => 40   // .-...
    case 49 => 106  // -.-.-.
    case 50 => 77   // ..--.-
    case 51 => 82   // .-..-.
    case 52 => 137  // ...-..-
    case 53 => 90   // .--.-.
    case _ => 2
  }

  /** The test of one encoding branch: the key itself or, for a letter, its lower case. */
  predicate Matches(c: char, key: char)
  {
    c == key || c == Text.Lower(key)
  }

  /**
   * Index of the first entry from `i` on whose `column` holds `x`, or
   * `Size`: the order in which the branches of both lookups try the table.
   */
  function Scan<T(==)>(column: int -> T, x: T, i: nat): (r: nat)
    requires i <= Size
    ensures i <= r <= Size
    decreases Size - i
  {
    if i == Size then Size
    else if column(i) == x then i
    else Scan(column, x, i + 1)
  }

  /** The scan stops only at an entry holding `x`. */
  lemma {:induction false} ScanFound<T>(column: int -> T, x: T, i: nat)
    requires i <= Size
    ensures Scan(column, x, i) < Size ==> column(Scan(column, x, i)) == x
    decreases Size - i
  {
    if i < Size && column(i) != x {
      ScanFound(column, x, i + 1);
    }
  }

  /** Where no earlier entry holds the same value, the scan for an entry's value finds that entry. */
  lemma {:induction false} ScanEntry<T>(column: int -> T, j: int, i: nat)
    requires i <= j < Size
    requires forall k :: i <= k < j ==> column(k) != column(j)
    ensures Scan(column, column(j), i) == j
    decreases j - i
  {
    if i < j {
      ScanEntry(column, j, i + 1);
    }
  }

  /** The scan for an entry's key finds that entry. */
  lemma ScanKey(j: int)
    requires 0 <= j < Size
    ensures Scan(Key, Key(j), 0) == j
  {
    forall k | 0 <= k < j
      ensures Key(k) != Key(j)
    {
      KeysDistinct(k, j);
    }
    ScanEntry(Key, j, 0);
  }

  /** The scan for an entry's code number finds that entry. */
  lemma ScanCode(j: int)
    requires 0 <= j < Size
    ensures Scan(Code, Code(j), 0) == j
  {
    forall k | 0 <= k < j
      ensures Code(k) != Code(j)
    {
      CodesDistinct(k, j);
    }
    ScanEntry(Code, j, 0);
  }

  /** The characters with a code: letters of either case, digits and the listed punctuation. */
  predicate Supported(c: char)
  {
    exists i :: 0 <= i < Size && Text.Upper(c) == Key(i)
  }

  /**
   * The branches of `EncodeChar` from entry `i` on: the code of the first
   * entry `c` matches, else a single space for a space, else "".
   */
  function EncodeFrom(c: char, i: nat): string
    requires i <= Size
    decreases Size - i
  {
    if i == Size then (if c == ' ' then " " else "")
    else if Matches(c, Key(i)) then Spell(Code(i))
    else EncodeFrom(c, i + 1)
  }

  /** `EncodeChar`: the code of `c`, a single space for a space, and "" for anything else. */
  function EncodeChar(c: char): string
  {
    EncodeFrom(c, 0)
  }

  /** The branches of `DecodeChar` from entry `i` on: the key of the first entry whose code is numbered `n`, else NUL. */
  function DecodeFrom(n: nat, i: nat): char
    requires i <= Size
    decreases Size - i
  {
    if i == Size then '\0'
    else if Code(i) == n then Key(i)
    else DecodeFrom(n, i + 1)
  }

  /**
   * `DecodeChar`: the character whose code is `data`, or NUL for an
   * unknown code. The source compares `data` with each code in turn;
   * comparing numbers is the same test, since a code is the spelling of
   * its number and a string other than dots and dashes has number 0,
   * which no entry has (`DecodeCharTable`).
   */
  function DecodeChar(data: string): char
  {
    DecodeFrom(CodeNumber(data), 0)
  }

  /**
   * Keys are upper case or not letters at all, and none is a space, a
   * newline or NUL; every code has at least one signal.
   */
  lemma EntryFacts(i: int)
    requires 0 <= i < Size
    ensures Text.Upper(Key(i)) == Key(i)
    ensures Key(i) != ' ' && Key(i) != '\n' && Key(i) != '\0'
    ensures Code(i) >= 2
  {
  }

  /** No two entries share a key. */
  lemma KeysDistinct(i: int, j: int)
    requires 0 <= i < j < Size
    ensures Key(i) != Key(j)
  {
  }

  /** No two entries share a code. */
  lemma CodesDistinct(i: int, j: int)
    requires 0 <= i < j < Size
    ensures Code(i) != Code(j)
  {
  }

  /** Every branch tests the upper case of `c`: `c` matches a key exactly when the key is `Upper(c)`. */
  lemma MatchesUpper(c: char, i: int)
    requires 0 <= i < Size
    ensures Matches(c, Key(i)) <==> Text.Upper(c) == Key(i)
  {
    EntryFacts(i);
  }

  /** The encoding branches return the code of the entry the scan of the keys finds. */
  lemma {:induction false} EncodeFromFound(c: char, i: nat)
    requires i <= Size
    ensures Scan(Key, Text.Upper(c), i) < Size ==> EncodeFrom(c, i) == Spell(Code(Scan(Key, Text.Upper(c), i)))
    decreases Size - i
  {
    if i < Size {
      MatchesUpper(c, i);
      if Text.Upper(c) != Key(i) {
        EncodeFromFound(c, i + 1);
        assert Scan(Key, Text.Upper(c), i) == Scan(Key, Text.Upper(c), i + 1);
        assert EncodeFrom(c, i) == EncodeFrom(c, i + 1);
      }
    }
  }

  /** When the scan finds no entry, the branches return a space for a space and "" otherwise. */
  lemma {:induction false} EncodeFromNone(c: char, i: nat)
    requires i <= Size
    ensures Scan(Key, Text.Upper(c), i) == Size ==> EncodeFrom(c, i) == if c == ' ' then " " else ""
    decreases Size - i
  {
    if i < Size {
      MatchesUpper(c, i);
      if Text.Upper(c) != Key(i) {
        EncodeFromNone(c, i + 1);
        assert Scan(Key, Text.Upper(c), i) == Scan(Key, Text.Upper(c), i + 1);
        assert EncodeFrom(c, i) == EncodeFrom(c, i + 1);
      }
    }
  }

  /** Both together. */
  lemma EncodeFromAt(c: char, i: nat)
    requires i <= Size
    ensures Scan(Key, Text.Upper(c), i) < Size ==> EncodeFrom(c, i) == Spell(Code(Scan(Key, Text.Upper(c), i)))
    ensures Scan(Key, Text.Upper(c), i) == Size ==> EncodeFrom(c, i) == if c == ' ' then " " else ""
  {
    EncodeFromFound(c, i);
    EncodeFromNone(c, i);
  }

  /** The decoding branches return the key of the entry the scan of the code numbers finds. */
  lemma {:induction false} DecodeFromAt(n: nat, i: nat)
    requires i <= Size
    ensures Scan(Code, n, i) < Size ==> DecodeFrom(n, i) == Key(Scan(Code, n, i))
    ensures Scan(Code, n, i) == Size ==> DecodeFrom(n, i) == '\0'
    decreases Size - i
  {
    if i < Size && Code(i) != n {
      DecodeFromAt(n, i + 1);
    }
  }

  /** A character is supported exactly when the scan finds its entry. */
  lemma SupportedAt(c: char)
    ensures Supported(c) <==> Scan(Key, Text.Upper(c), 0) < Size
  {
    ScanFound(Key, Text.Upper(c), 0);
    if Supported(c) {
      var i :| 0 <= i < Size && Text.Upper(c) == Key(i);
      ScanKey(i);
    }
  }

  /** `EncodeChar` gives a letter of either case the same code. */
  lemma EncodeCaseInsensitive(c: char)
    ensures EncodeChar(c) == EncodeChar(Text.Upper(c))
    ensures EncodeChar(Text.Lower(c)) == EncodeChar(c)
  {
    assert Text.Upper(Text.Upper(c)) == Text.Upper(c);
    assert Text.Upper(Text.Lower(c)) == Text.Upper(c);
    assert Text.Upper(c) == ' ' <==> c == ' ';
    assert Text.Lower(c) == ' ' <==> c == ' ';
    EncodeFromAt(c, 0);
    EncodeFromAt(Text.Upper(c), 0);
    EncodeFromAt(Text.Lower(c), 0);
  }

  /** `EncodeChar` as the source's table reads: the code listed for the upper case of `c`, or, when no entry has that key, a space for a space and "" otherwise. */
  lemma EncodeCharTable(c: char)
    ensures forall i :: 0 <= i < Size && Key(i) == Text.Upper(c) ==> EncodeChar(c) == Spell(Code(i))
    ensures (forall i :: 0 <= i < Size ==> Key(i) != Text.Upper(c)) ==> EncodeChar(c) == if c == ' ' then " " else ""
  {
    EncodeFromAt(c, 0);
    ScanFound(Key, Text.Upper(c), 0);
    forall i | 0 <= i < Size && Key(i) == Text.Upper(c)
      ensures EncodeFrom(c, 0) == Spell(Code(i))
    {
      ScanKey(i);
    }
  }

  /** `DecodeChar` as the source's comparisons read: the key of the entry whose code is the string `data`, or NUL when no code is. */
  lemma DecodeCharTable(data: string)
    ensures forall i :: 0 <= i < Size && Spell(Code(i)) == data ==> DecodeChar(data) == Key(i)
    ensures (forall i :: 0 <= i < Size ==> Spell(Code(i)) != data) ==> DecodeChar(data) == '\0'
  {
    var n := CodeNumber(data);
    DecodeFromAt(n, 0);
    ScanFound(Code, n, 0);
    var j := Scan(Code, n, 0);
    if j < Size {
      EntryFacts(j);
      SpellNumber(data);
    }
    forall i | 0 <= i < Size && Spell(Code(i)) == data
      ensures DecodeFrom(n, 0) == Key(i)
    {
      EntryFacts(i);
      NumberSpell(Code(i));
      ScanCode(i);
    }
  }

  /**
   * What `EncodeChar` returns: dots and dashes (at least one) for a
   * supported character, a single space for a space, "" for the rest.
   */
  lemma EncodeCharMeaning(c: char)
    ensures Supported(c) ==> |EncodeChar(c)| >= 1 && Signals(EncodeChar(c)) && Text.Upper(c) != '\0'
    ensures c == ' ' ==> !Supported(c) && EncodeChar(c) == " "
    ensures c == '\n' ==> !Supported(c)
    ensures EncodeChar(c) == "" <==> !Supported(c) && c != ' '
  {
    SupportedAt(c);
    EncodeFromAt(c, 0);
    var i := Scan(Key, Text.Upper(c), 0);
    ScanFound(Key, Text.Upper(c), 0);
    if i < Size {
      EntryFacts(i);
    }
  }

  /** Decoding the code of a supported character gives its upper case. */
  lemma DecodeEncode(c: char)
    requires Supported(c)
    ensures DecodeChar(EncodeChar(c)) == Text.Upper(c)
  {
    SupportedAt(c);
    EncodeFromAt(c, 0);
    var j := Scan(Key, Text.Upper(c), 0);
    ScanFound(Key, Text.Upper(c), 0);
    EntryFacts(j);
    NumberSpell(Code(j));
    ScanCode(j);
    DecodeFromAt(Code(j), 0);
  }

  /** A code that decodes is the code of the character it decodes to, an upper-case supported one. */
  lemma EncodeDecode(data: string)
    requires DecodeChar(data) != '\0'
    ensures Supported(DecodeChar(data)) && Text.Upper(DecodeChar(data)) == DecodeChar(data)
    ensures EncodeChar(DecodeChar(data)) == data
  {
    var j := Scan(Code, CodeNumber(data), 0);
    ScanFound(Code, CodeNumber(data), 0);
    DecodeFromAt(CodeNumber(data), 0);
    SpellNumber(data);
    EntryFacts(j);
    ScanKey(j);
    EncodeFromAt(Key(j), 0);
  }

  /** `DecodeChar` gives NUL exactly for a string that is no supported character's code. */
  lemma DecodeCharMeaning(data: string)
    ensures DecodeChar(data) == '\0' <==> forall c :: Supported(c) ==> EncodeChar(c) != data
  {
    if DecodeChar(data) != '\0' {
      EncodeDecode(data);
    } else {
      forall c | Supported(c)
        ensures EncodeChar(c) != data
      {
        if EncodeChar(c) == data {
          EncodeCharMeaning(c);
          DecodeEncode(c);
        }
      }
    }
  }

  /** The exception both directions throw for input they cannot handle. */
  function Invalid(s: string): Thrown
  {
    Raise(NullPointer, "Invalid character: '" + s + "'")
  }

  /** A character `Encode` accepts inside a word. */
  predicate Encodable(c: char)
  {
    EncodeChar(c) != ""
  }

  // Encoding, as the three loops of `Encode` run.

  /** Encodes the characters `w[p..]` of a word after `fin`, a space following every code but the word's last. */
  function EncodeSymbols(w: string, p: nat, fin: string): Result<string, Thrown>
    requires p <= |w|
    decreases |w| - p
  {
    if p == |w| then Ok(fin)
    else if EncodeChar(w[p]) == "" then Err(Invalid([w[p]]))
    else EncodeSymbols(w, p + 1, fin + EncodeChar(w[p]) + (if p != |w| - 1 then " " else ""))
  }

  /** Encodes the words `ws[l..]` of a line after `fin`, " / " following every word but the last. */
  function EncodeWords(ws: seq<string>, l: nat, fin: string): Result<string, Thrown>
    requires l <= |ws|
    decreases |ws| - l
  {
    if l == |ws| then Ok(fin)
    else match EncodeSymbols(ws[l], 0, fin)
      case Err(e) => Err(e)
      case Ok(f) => EncodeWords(ws, l + 1, f + (if l != |ws| - 1 then " / " else ""))
  }

  /** Encodes the lines `ls[u..]` after `fin`, each split at spaces, a newline following every line but the last. */
  function EncodeLines(ls: seq<string>, u: nat, fin: string): Result<string, Thrown>
    requires u <= |ls|
    decreases |ls| - u
  {
    if u == |ls| then Ok(fin)
    else match EncodeWords(Text.JavaSplit(ls[u], " "), 0, fin)
      case Err(e) => Err(e)
      case Ok(f) => EncodeLines(ls, u + 1, f + (if u != |ls| - 1 then "\n" else ""))
  }

  /** What `Encode(data)` returns or throws. */
  function Encoded(data: string): Result<string, Thrown>
  {
    EncodeLines(Text.JavaSplit(data, "\n"), 0, "")
  }

  /** `Encode`: split into lines, then words, then characters, appending each code. */
  method Encode(data: string) returns (r: Result<string, Thrown>)
    ensures r == Encoded(data)
  {
    var fin := "";
    var lines := Text.JavaSplit(data, "\n");
    for u := 0 to |lines|
      invariant EncodeLines(lines, u, fin) == Encoded(data)
    {
      var words := Text.JavaSplit(lines[u], " ");
      ghost var lineStart := fin;
      for l := 0 to |words|
        invariant EncodeWords(words, l, fin) == EncodeWords(words, 0, lineStart)
      {
        ghost var wordStart := fin;
        var w := words[l];
        for p := 0 to |w|
          invariant EncodeSymbols(w, p, fin) == EncodeSymbols(w, 0, wordStart)
        {
          var code := EncodeChar(w[p]);
          if code == "" {
            assert EncodeSymbols(w, 0, wordStart) == Err(Invalid([w[p]]));
            assert EncodeWords(words, l, wordStart) == Err(Invalid([w[p]]));
            assert EncodeLines(lines, u, lineStart) == Err(Invalid([w[p]]));
            return Err(Invalid([w[p]]));
          }
          ghost var next := fin + code + (if p != |w| - 1 then " " else "");
          assert EncodeSymbols(w, p, fin) == EncodeSymbols(w, p + 1, next);
          fin := fin + code;
          if p != |w| - 1 {
            fin := fin + " ";
          }
          assert fin == next;
        }
        assert EncodeSymbols(w, 0, wordStart) == Ok(fin);
        ghost var next := fin + (if l != |words| - 1 then " / " else "");
        assert EncodeWords(words, l, wordStart) == EncodeWords(words, l + 1, next);
        if l != |words| - 1 {
          fin := fin + " / ";
        }
        assert fin == next;
      }
      assert EncodeWords(words, 0, lineStart) == Ok(fin);
      ghost var next := fin + (if u != |lines| - 1 then "\n" else "");
      assert EncodeLines(lines, u, lineStart) == EncodeLines(lines, u + 1, next);
      if u != |lines| - 1 {
        fin := fin + "\n";
      }
      assert fin == next;
    }
    return Ok(fin);
  }

  // Decoding, as the three loops of `Decode` run.

  /** Decodes the codes `cs[p..]` of a word after `fin`, with nothing between the characters. */
  function DecodeSymbols(cs: seq<string>, p: nat, fin: string): Result<string, Thrown>
    requires p <= |cs|
    decreases |cs| - p
  {
    if p == |cs| then Ok(fin)
    else if DecodeChar(cs[p]) == '\0' then Err(Invalid(cs[p]))
    else DecodeSymbols(cs, p + 1, fin + [DecodeChar(cs[p])])
  }

  /** Decodes the words `ws[l..]` of a line after `fin`, each split at spaces, a space following every word but the last. */
  function DecodeWords(ws: seq<string>, l: nat, fin: string): Result<string, Thrown>
    requires l <= |ws|
    decreases |ws| - l
  {
    if l == |ws| then Ok(fin)
    else match DecodeSymbols(Text.JavaSplit(ws[l], " "), 0, fin)
      case Err(e) => Err(e)
      case Ok(f) => DecodeWords(ws, l + 1, f + (if l != |ws| - 1 then " " else ""))
  }

  /** Decodes the lines `ls[u..]` after `fin`, each split at " / ", a newline following every line but the last. */
  function DecodeLines(ls: seq<string>, u: nat, fin: string): Result<string, Thrown>
    requires u <= |ls|
    decreases |ls| - u
  {
    if u == |ls| then Ok(fin)
    else match DecodeWords(Text.JavaSplit(ls[u], " / "), 0, fin)
      case Err(e) => Err(e)
      case Ok(f) => DecodeLines(ls, u + 1, f + (if u != |ls| - 1 then "\n" else ""))
  }

  /** What `Decode(data)` returns or throws. */
  function Decoded(data: string): Result<string, Thrown>
  {
    DecodeLines(Text.JavaSplit(data, "\n"), 0, "")
  }

  /** `Decode`: split into lines, then words at " / ", then codes at spaces, appending each character. */
  method Decode(data: string) returns (r: Result<string, Thrown>)
    ensures r == Decoded(data)
  {
    var fin := "";
    var lines := Text.JavaSplit(data, "\n");
    for u := 0 to |lines|
      invariant DecodeLines(lines, u, fin) == Decoded(data)
    {
      var words := Text.JavaSplit(lines[u], " / ");
      ghost var lineStart := fin;
      for l := 0 to |words|
        invariant DecodeWords(words, l, fin) == DecodeWords(words, 0, lineStart)
      {
        ghost var wordStart := fin;
        var chars := Text.JavaSplit(words[l], " ");
        for p := 0 to |chars|
          invariant DecodeSymbols(chars, p, fin) == DecodeSymbols(chars, 0, wordStart)
        {
          var c := DecodeChar(chars[p]);
          if c == '\0' {
            assert DecodeSymbols(chars, 0, wordStart) == Err(Invalid(chars[p]));
            assert DecodeWords(words, l, wordStart) == Err(Invalid(chars[p]));
            assert DecodeLines(lines, u, lineStart) == Err(Invalid(chars[p]));
            return Err(Invalid(chars[p]));
          }
          assert DecodeSymbols(chars, p, fin) == DecodeSymbols(chars, p + 1, fin + [c]);
          fin := fin + [c];
        }
        assert DecodeSymbols(chars, 0, wordStart) == Ok(fin);
        ghost var next := fin + (if l != |words| - 1 then " " else "");
        assert DecodeWords(words, l, wordStart) == DecodeWords(words, l + 1, next);
        if l != |words| - 1 {
          fin := fin + " ";
        }
        assert fin == next;
      }
      assert DecodeWords(words, 0, lineStart) == Ok(fin);
      ghost var next := fin + (if u != |lines| - 1 then "\n" else "");
      assert DecodeLines(lines, u, lineStart) == DecodeLines(lines, u + 1, next);
      if u != |lines| - 1 {
        fin := fin + "\n";
      }
      assert fin == next;
    }
    return Ok(fin);
  }

  // What the loops build, stated without the loops.

  /** The codes of the characters of a word. */
  function CodesOf(w: string): (r: seq<string>)
    ensures |r| == |w|
  {
    seq(|w|, i requires 0 <= i < |w| => EncodeChar(w[i]))
  }

  /** A word's encoding: its codes separated by spaces. */
  function WordText(w: string): string
  {
    Text.Join(CodesOf(w), " ")
  }

  function WordTexts(ws: seq<string>): (r: seq<string>)
    ensures |r| == |ws|
  {
    seq(|ws|, k requires 0 <= k < |ws| => WordText(ws[k]))
  }

  /** A line's encoding: the encodings of its space-separated words, separated by " / ". */
  function LineText(line: string): string
  {
    Text.Join(WordTexts(Text.JavaSplit(line, " ")), " / ")
  }

  function LineTexts(ls: seq<string>): (r: seq<string>)
    ensures |r| == |ls|
  {
    seq(|ls|, u requires 0 <= u < |ls| => LineText(ls[u]))
  }

  /** A text's encoding: the encodings of its lines, separated by newlines. */
  function EncodedText(data: string): string
  {
    Text.Join(LineTexts(Text.JavaSplit(data, "\n")), "\n")
  }

  /** The characters of a word are encoded exactly when each has a code. */
  lemma {:induction false} SymbolsAccepted(w: string, p: nat, fin: string)
    requires p <= |w|
    ensures EncodeSymbols(w, p, fin).Ok? <==> forall j :: p <= j < |w| ==> Encodable(w[j])
    decreases |w| - p
  {
    if p < |w| && Encodable(w[p]) {
      SymbolsAccepted(w, p + 1, fin + EncodeChar(w[p]) + (if p != |w| - 1 then " " else ""));
    }
  }

  /** An encoded word is its codes joined by spaces. */
  lemma {:induction false} SymbolsValue(w: string, p: nat, fin: string)
    requires p <= |w|
    ensures EncodeSymbols(w, p, fin).Ok? ==> EncodeSymbols(w, p, fin).value == fin + Text.Join(CodesOf(w)[p..], " ")
    decreases |w| - p
  {
    var cs := CodesOf(w)[p..];
    if p == |w| {
      assert fin + "" == fin;
    } else if Encodable(w[p]) {
      SymbolsValue(w, p + 1, fin + EncodeChar(w[p]) + (if p != |w| - 1 then " " else ""));
      assert cs[0] == EncodeChar(w[p]) && cs[1..] == CodesOf(w)[p + 1..];
      Text.JoinStep(fin, cs, " ");
    }
  }

  /** A word that cannot be encoded names a character without a code. */
  lemma {:induction false} SymbolsRejected(w: string, p: nat, fin: string)
    requires p <= |w|
    ensures EncodeSymbols(w, p, fin).Err? ==>
      exists j :: p <= j < |w| && !Encodable(w[j]) && EncodeSymbols(w, p, fin).error == Invalid([w[j]])
    decreases |w| - p
  {
    if p < |w| && Encodable(w[p]) {
      SymbolsRejected(w, p + 1, fin + EncodeChar(w[p]) + (if p != |w| - 1 then " " else ""));
    }
  }

  /** The words of a line are encoded exactly when each of their characters has a code. */
  lemma {:induction false} WordsAccepted(ws: seq<string>, l: nat, fin: string)
    requires l <= |ws|
    ensures EncodeWords(ws, l, fin).Ok? <==>
      forall k, j :: l <= k < |ws| && 0 <= j < |ws[k]| ==> Encodable(ws[k][j])
    decreases |ws| - l
  {
    if l < |ws| {
      SymbolsAccepted(ws[l], 0, fin);
      var r := EncodeSymbols(ws[l], 0, fin);
      if r.Ok? {
        WordsAccepted(ws, l + 1, r.value + (if l != |ws| - 1 then " / " else ""));
      }
    }
  }

  /** An encoded line is its words' encodings joined by " / ". */
  lemma {:induction false} WordsValue(ws: seq<string>, l: nat, fin: string)
    requires l <= |ws|
    ensures EncodeWords(ws, l, fin).Ok? ==> EncodeWords(ws, l, fin).value == fin + Text.Join(WordTexts(ws)[l..], " / ")
    decreases |ws| - l
  {
    var ts := WordTexts(ws)[l..];
    if l < |ws| {
      SymbolsValue(ws[l], 0, fin);
      assert CodesOf(ws[l])[0..] == CodesOf(ws[l]);
      if EncodeSymbols(ws[l], 0, fin).Ok? {
        WordsValue(ws, l + 1, fin + WordText(ws[l]) + (if l != |ws| - 1 then " / " else ""));
        assert ts[0] == WordText(ws[l]) && ts[1..] == WordTexts(ws)[l + 1..];
        Text.JoinStep(fin, ts, " / ");
      }
    } else {
      assert fin + "" == fin;
    }
  }

  /** A line that cannot be encoded names a character of one of its words without a code. */
  lemma {:induction false} WordsRejected(ws: seq<string>, l: nat, fin: string)
    requires l <= |ws|
    ensures EncodeWords(ws, l, fin).Err? ==>
      exists k, j :: l <= k < |ws| && 0 <= j < |ws[k]| && !Encodable(ws[k][j]) && EncodeWords(ws, l, fin).error == Invalid([ws[k][j]])
    decreases |ws| - l
  {
    if l < |ws| {
      SymbolsRejected(ws[l], 0, fin);
      var r := EncodeSymbols(ws[l], 0, fin);
      if r.Ok? {
        WordsRejected(ws, l + 1, r.value + (if l != |ws| - 1 then " / " else ""));
      }
    }
  }

  /** The characters of the words of a line are the line's characters other than spaces. */
  lemma WordsOfLine(line: string, c: char)
    requires c != ' '
    ensures c in line <==> exists k, j :: 0 <= k < |Text.JavaSplit(line, " ")| && 0 <= j < |Text.JavaSplit(line, " ")[k]| && Text.JavaSplit(line, " ")[k][j] == c
  {
    Text.JavaSplitMembers(line, ' ', c);
  }

  /** A line's words are all encodable exactly when every character of the line is (a space always is). */
  lemma LineAccepted(line: string)
    ensures (forall k, j :: 0 <= k < |Text.JavaSplit(line, " ")| && 0 <= j < |Text.JavaSplit(line, " ")[k]| ==> Encodable(Text.JavaSplit(line, " ")[k][j]))
      <==> forall i :: 0 <= i < |line| ==> Encodable(line[i])
  {
    var ws := Text.JavaSplit(line, " ");
    EncodeCharMeaning(' ');
    if forall k, j :: 0 <= k < |ws| && 0 <= j < |ws[k]| ==> Encodable(ws[k][j]) {
      forall i | 0 <= i < |line|
        ensures Encodable(line[i])
      {
        if line[i] != ' ' {
          WordsOfLine(line, line[i]);
        }
      }
    } else {
      var k, j :| 0 <= k < |ws| && 0 <= j < |ws[k]| && !Encodable(ws[k][j]);
      WordsOfLine(line, ws[k][j]);
    }
  }

  /** The lines are encoded exactly when each of their characters has a code. */
  lemma {:induction false} LinesAccepted(ls: seq<string>, u: nat, fin: string)
    requires u <= |ls|
    ensures EncodeLines(ls, u, fin).Ok? <==>
      forall k, i :: u <= k < |ls| && 0 <= i < |ls[k]| ==> Encodable(ls[k][i])
    decreases |ls| - u
  {
    if u < |ls| {
      var ws := Text.JavaSplit(ls[u], " ");
      WordsAccepted(ws, 0, fin);
      LineAccepted(ls[u]);
      var r := EncodeWords(ws, 0, fin);
      if r.Ok? {
        LinesAccepted(ls, u + 1, r.value + (if u != |ls| - 1 then "\n" else ""));
      }
    }
  }

  /** Encoded lines are the lines' encodings joined by newlines. */
  lemma {:induction false} LinesValue(ls: seq<string>, u: nat, fin: string)
    requires u <= |ls|
    ensures EncodeLines(ls, u, fin).Ok? ==> EncodeLines(ls, u, fin).value == fin + Text.Join(LineTexts(ls)[u..], "\n")
    decreases |ls| - u
  {
    var ts := LineTexts(ls)[u..];
    if u < |ls| {
      var ws := Text.JavaSplit(ls[u], " ");
      WordsValue(ws, 0, fin);
      assert WordTexts(ws)[0..] == WordTexts(ws);
      if EncodeWords(ws, 0, fin).Ok? {
        LinesValue(ls, u + 1, fin + LineText(ls[u]) + (if u != |ls| - 1 then "\n" else ""));
        assert ts[0] == LineText(ls[u]) && ts[1..] == LineTexts(ls)[u + 1..];
        Text.JoinStep(fin, ts, "\n");
      }
    } else {
      assert fin + "" == fin;
    }
  }

  /** Lines that cannot be encoded name a character of one of them without a code. */
  lemma {:induction false} LinesRejected(ls: seq<string>, u: nat, fin: string)
    requires u <= |ls|
    ensures EncodeLines(ls, u, fin).Err? ==>
      exists k, i :: u <= k < |ls| && 0 <= i < |ls[k]| && !Encodable(ls[k][i]) && EncodeLines(ls, u, fin).error == Invalid([ls[k][i]])
    decreases |ls| - u
  {
    if u < |ls| {
      var ws := Text.JavaSplit(ls[u], " ");
      WordsRejected(ws, 0, fin);
      var r := EncodeWords(ws, 0, fin);
      if r.Ok? {
        LinesRejected(ls, u + 1, r.value + (if u != |ls| - 1 then "\n" else ""));
      } else {
        var k, j :| 0 <= k < |ws| && 0 <= j < |ws[k]| && !Encodable(ws[k][j]) && r.error == Invalid([ws[k][j]]);
        var c := ws[k][j];
        EncodeCharMeaning(' ');
        WordsOfLine(ls[u], c);
        var i :| 0 <= i < |ls[u]| && ls[u][i] == c;
      }
    }
  }

  /**
   * What `Encode` does: it throws exactly when a character other than a
   * newline has no code (a space inside a line always has one), naming
   * such a character; otherwise it returns the codes with a space
   * between the characters of a word, " / " between words and a newline
   * between lines.
   */
  lemma EncodedMeaning(data: string)
    ensures Encoded(data).Ok? <==> forall i :: 0 <= i < |data| && data[i] != '\n' ==> Encodable(data[i])
    ensures Encoded(data).Ok? ==> Encoded(data).value == EncodedText(data)
    ensures Encoded(data).Err? ==>
      exists i :: 0 <= i < |data| && data[i] != '\n' && !Encodable(data[i]) && Encoded(data).error == Invalid([data[i]])
  {
    var ls := Text.JavaSplit(data, "\n");
    LinesAccepted(ls, 0, "");
    LinesValue(ls, 0, "");
    LinesRejected(ls, 0, "");
    assert LineTexts(ls)[0..] == LineTexts(ls);
    if Encoded(data).Ok? {
      forall i | 0 <= i < |data| && data[i] != '\n'
        ensures Encodable(data[i])
      {
        Text.JavaSplitMembers(data, '\n', data[i]);
        var k :| 0 <= k < |ls| && data[i] in ls[k];
        var j :| 0 <= j < |ls[k]| && ls[k][j] == data[i];
      }
    } else {
      var k, j :| 0 <= k < |ls| && 0 <= j < |ls[k]| && !Encodable(ls[k][j]) && Encoded(data).error == Invalid([ls[k][j]]);
      var c := ls[k][j];
      Text.JavaSplitMembers(data, '\n', ' ');
      assert c != '\n';
      Text.JavaSplitMembers(data, '\n', c);
      var i :| 0 <= i < |data| && data[i] == c;
      assert !Encodable(data[i]);
    }
  }

  /** A code `DecodeChar` knows. */
  predicate Known(code: string)
  {
    DecodeChar(code) != '\0'
  }

  /** The characters of a word's codes. */
  function CharsOf(cs: seq<string>): (r: string)
    ensures |r| == |cs|
  {
    seq(|cs|, p requires 0 <= p < |cs| => DecodeChar(cs[p]))
  }

  /** A word decoded: the characters of its space-separated codes. */
  function WordPlain(word: string): string
  {
    CharsOf(Text.JavaSplit(word, " "))
  }

  function WordPlains(ws: seq<string>): (r: seq<string>)
    ensures |r| == |ws|
  {
    seq(|ws|, l requires 0 <= l < |ws| => WordPlain(ws[l]))
  }

  /** A line decoded: its " / "-separated words decoded, separated by spaces. */
  function LinePlain(line: string): string
  {
    Text.Join(WordPlains(Text.JavaSplit(line, " / ")), " ")
  }

  function LinePlains(ls: seq<string>): (r: seq<string>)
    ensures |r| == |ls|
  {
    seq(|ls|, u requires 0 <= u < |ls| => LinePlain(ls[u]))
  }

  /** A text decoded: its lines decoded, separated by newlines. */
  function DecodedText(data: string): string
  {
    Text.Join(LinePlains(Text.JavaSplit(data, "\n")), "\n")
  }

  /** Every code of a word is known. */
  predicate WordKnown(word: string)
  {
    var cs := Text.JavaSplit(word, " ");
    forall j :: 0 <= j < |cs| ==> Known(cs[j])
  }

  /** Every word of a line is. */
  predicate LineKnown(line: string)
  {
    var ws := Text.JavaSplit(line, " / ");
    forall l :: 0 <= l < |ws| ==> WordKnown(ws[l])
  }

  /** Every line of a text is. */
  predicate TextKnown(data: string)
  {
    var ls := Text.JavaSplit(data, "\n");
    forall u :: 0 <= u < |ls| ==> LineKnown(ls[u])
  }

  /** `code` is one of the codes of `data`, split as `Decode` splits it. */
  predicate CodeIn(code: string, data: string)
  {
    exists line, word :: line in Text.JavaSplit(data, "\n") && word in Text.JavaSplit(line, " / ") && code in Text.JavaSplit(word, " ")
  }

  /** `P` holds of `xs[l]`, `xs[l + 1]` and so on to the end, checked one element at a time as the loops check them. */
  predicate AllFrom<T>(P: T -> bool, xs: seq<T>, l: nat)
    decreases |xs| - l
  {
    l >= |xs| || (P(xs[l]) && AllFrom(P, xs, l + 1))
  }

  /** Checking one element at a time means `P` holds of every element from `l` on. */
  lemma {:induction false} AllFromMeans<T>(P: T -> bool, xs: seq<T>, l: nat)
    requires l <= |xs|
    ensures AllFrom(P, xs, l) <==> forall k :: l <= k < |xs| ==> P(xs[k])
    decreases |xs| - l
  {
    if l < |xs| {
      AllFromMeans(P, xs, l + 1);
    }
  }

  /** The codes of a word are decoded exactly when each is known. */
  lemma {:induction false} CodesAccepted(cs: seq<string>, p: nat, fin: string)
    requires p <= |cs|
    ensures DecodeSymbols(cs, p, fin).Ok? <==> AllFrom(Known, cs, p)
    decreases |cs| - p
  {
    if p < |cs| && Known(cs[p]) {
      CodesAccepted(cs, p + 1, fin + [DecodeChar(cs[p])]);
    }
  }

  /** A decoded word is the characters of its codes. */
  lemma {:induction false} CodesValue(cs: seq<string>, p: nat, fin: string)
    requires p <= |cs|
    ensures DecodeSymbols(cs, p, fin).Ok? ==> DecodeSymbols(cs, p, fin).value == fin + CharsOf(cs)[p..]
    decreases |cs| - p
  {
    if p == |cs| {
      assert fin + CharsOf(cs)[p..] == fin;
    } else if DecodeChar(cs[p]) != '\0' {
      CodesValue(cs, p + 1, fin + [DecodeChar(cs[p])]);
      assert CharsOf(cs)[p..] == [DecodeChar(cs[p])] + CharsOf(cs)[p + 1..];
    }
  }

  /** A word that cannot be decoded names an unknown code of it. */
  lemma {:induction false} CodesRejected(cs: seq<string>, p: nat, fin: string)
    requires p <= |cs|
    ensures DecodeSymbols(cs, p, fin).Err? ==>
      exists j :: p <= j < |cs| && !Known(cs[j]) && DecodeSymbols(cs, p, fin).error == Invalid(cs[j])
    decreases |cs| - p
  {
    if p < |cs| && Known(cs[p]) {
      CodesRejected(cs, p + 1, fin + [DecodeChar(cs[p])]);
    }
  }

  /** The words of a line are decoded exactly when each is known. */
  lemma {:induction false} CodeWordsAccepted(ws: seq<string>, l: nat, fin: string)
    requires l <= |ws|
    ensures DecodeWords(ws, l, fin).Ok? <==> AllFrom(WordKnown, ws, l)
    decreases |ws| - l
  {
    if l < |ws| {
      var cs := Text.JavaSplit(ws[l], " ");
      var r := DecodeSymbols(cs, 0, fin);
      assert r.Ok? <==> WordKnown(ws[l]) by {
        CodesAccepted(cs, 0, fin);
        AllFromMeans(Known, cs, 0);
      }
      if r.Ok? {
        CodeWordsAccepted(ws, l + 1, r.value + (if l != |ws| - 1 then " " else ""));
      }
    }
  }

  /** A decoded line is its words decoded, joined by spaces. */
  lemma {:induction false} CodeWordsValue(ws: seq<string>, l: nat, fin: string)
    requires l <= |ws|
    ensures DecodeWords(ws, l, fin).Ok? ==> DecodeWords(ws, l, fin).value == fin + Text.Join(WordPlains(ws)[l..], " ")
    decreases |ws| - l
  {
    var ts := WordPlains(ws)[l..];
    if l < |ws| {
      var cs := Text.JavaSplit(ws[l], " ");
      CodesValue(cs, 0, fin);
      assert CharsOf(cs)[0..] == CharsOf(cs);
      if DecodeSymbols(cs, 0, fin).Ok? {
        CodeWordsValue(ws, l + 1, fin + WordPlain(ws[l]) + (if l != |ws| - 1 then " " else ""));
        assert ts[0] == WordPlain(ws[l]) && ts[1..] == WordPlains(ws)[l + 1..];
        Text.JoinStep(fin, ts, " ");
      }
    } else {
      assert fin + "" == fin;
    }
  }

  /** A line that cannot be decoded names an unknown code of one of its words. */
  lemma {:induction false} CodeWordsRejected(ws: seq<string>, l: nat, fin: string)
    requires l <= |ws|
    ensures DecodeWords(ws, l, fin).Err? ==>
      exists k, code :: l <= k < |ws| && code in Text.JavaSplit(ws[k], " ") && !Known(code) && DecodeWords(ws, l, fin).error == Invalid(code)
    decreases |ws| - l
  {
    if l < |ws| {
      var cs := Text.JavaSplit(ws[l], " ");
      CodesRejected(cs, 0, fin);
      var r := DecodeSymbols(cs, 0, fin);
      if r.Ok? {
        CodeWordsRejected(ws, l + 1, r.value + (if l != |ws| - 1 then " " else ""));
      } else {
        var j :| 0 <= j < |cs| && !Known(cs[j]) && r.error == Invalid(cs[j]);
        assert cs[j] in cs;
      }
    }
  }

  /** The lines are decoded exactly when each is known. */
  lemma {:induction false} CodeLinesAccepted(ls: seq<string>, u: nat, fin: string)
    requires u <= |ls|
    ensures DecodeLines(ls, u, fin).Ok? <==> AllFrom(LineKnown, ls, u)
    decreases |ls| - u
  {
    if u < |ls| {
      var ws := Text.JavaSplit(ls[u], " / ");
      var r := DecodeWords(ws, 0, fin);
      assert r.Ok? <==> LineKnown(ls[u]) by {
        CodeWordsAccepted(ws, 0, fin);
        AllFromMeans(WordKnown, ws, 0);
      }
      if r.Ok? {
        CodeLinesAccepted(ls, u + 1, r.value + (if u != |ls| - 1 then "\n" else ""));
      }
    }
  }

  /** Decoded lines are the lines decoded, joined by newlines. */
  lemma {:induction false} CodeLinesValue(ls: seq<string>, u: nat, fin: string)
    requires u <= |ls|
    ensures DecodeLines(ls, u, fin).Ok? ==> DecodeLines(ls, u, fin).value == fin + Text.Join(LinePlains(ls)[u..], "\n")
    decreases |ls| - u
  {
    var ts := LinePlains(ls)[u..];
    if u < |ls| {
      var ws := Text.JavaSplit(ls[u], " / ");
      CodeWordsValue(ws, 0, fin);
      assert WordPlains(ws)[0..] == WordPlains(ws);
      if DecodeWords(ws, 0, fin).Ok? {
        CodeLinesValue(ls, u + 1, fin + LinePlain(ls[u]) + (if u != |ls| - 1 then "\n" else ""));
        assert ts[0] == LinePlain(ls[u]) && ts[1..] == LinePlains(ls)[u + 1..];
        Text.JoinStep(fin, ts, "\n");
      }
    } else {
      assert fin + "" == fin;
    }
  }

  /** Lines that cannot be decoded name an unknown code of a word of one of them. */
  lemma {:induction false} CodeLinesRejected(ls: seq<string>, u: nat, fin: string)
    requires u <= |ls|
    ensures DecodeLines(ls, u, fin).Err? ==>
      exists k, word, code :: u <= k < |ls| && word in Text.JavaSplit(ls[k], " / ") && code in Text.JavaSplit(word, " ")
        && !Known(code) && DecodeLines(ls, u, fin).error == Invalid(code)
    decreases |ls| - u
  {
    if u < |ls| {
      var ws := Text.JavaSplit(ls[u], " / ");
      CodeWordsRejected(ws, 0, fin);
      var r := DecodeWords(ws, 0, fin);
      if r.Ok? {
        CodeLinesRejected(ls, u + 1, r.value + (if u != |ls| - 1 then "\n" else ""));
      } else {
        var k, code :| 0 <= k < |ws| && code in Text.JavaSplit(ws[k], " ") && !Known(code) && r.error == Invalid(code);
        assert ws[k] in ws;
      }
    }
  }

  /**
   * What `Decode` does: it throws exactly when some code of the text is
   * unknown, naming such a code; otherwise it returns the characters of
   * the codes, a space between words and a newline between lines.
   */
  lemma DecodedMeaning(data: string)
    ensures Decoded(data).Ok? <==> TextKnown(data)
    ensures Decoded(data).Ok? ==> Decoded(data).value == DecodedText(data)
    ensures Decoded(data).Err? ==> exists code :: CodeIn(code, data) && !Known(code) && Decoded(data).error == Invalid(code)
  {
    var ls := Text.JavaSplit(data, "\n");
    CodeLinesAccepted(ls, 0, "");
    AllFromMeans(LineKnown, ls, 0);
    CodeLinesValue(ls, 0, "");
    CodeLinesRejected(ls, 0, "");
    assert LinePlains(ls)[0..] == LinePlains(ls);
    assert TextKnown(data) <==> forall k :: 0 <= k < |ls| ==> LineKnown(ls[k]);
    if Decoded(data).Err? {
      var k, word, code :| 0 <= k < |ls| && word in Text.JavaSplit(ls[k], " / ") && code in Text.JavaSplit(word, " ")
        && !Known(code) && Decoded(data).error == Invalid(code);
      assert ls[k] in ls;
      assert CodeIn(code, data);
    }
  }

  // The round trip: decoding what `Encode` produced from plain text gives the text back in upper case.

  /** A non-empty word of supported characters. */
  predicate PlainWord(w: string)
  {
    |w| > 0 && forall i :: 0 <= i < |w| ==> Supported(w[i])
  }

  /** The lines of a text given as its words. */
  function LinesOf(L: seq<seq<string>>): (r: seq<string>)
    ensures |r| == |L|
  {
    seq(|L|, u requires 0 <= u < |L| => Text.Join(L[u], " "))
  }

  /** The text: words separated by single spaces, lines by newlines. */
  function Compose(L: seq<seq<string>>): string
  {
    Text.Join(LinesOf(L), "\n")
  }

  /** At least one line, each of at least one plain word. */
  predicate Plain(L: seq<seq<string>>)
  {
    |L| > 0 && forall u :: 0 <= u < |L| ==> |L[u]| > 0 && forall l :: 0 <= l < |L[u]| ==> PlainWord(L[u][l])
  }

  /** The code of a supported character: non-empty, dots and dashes, decoding to its upper case. */
  lemma CodeOfSupported(c: char)
    requires Supported(c)
    ensures |EncodeChar(c)| > 0 && Signals(EncodeChar(c)) && Encodable(c)
    ensures DecodeChar(EncodeChar(c)) == Text.Upper(c) != '\0'
    ensures c != ' ' && c != '\n'
  {
    EncodeCharMeaning(c);
    EncodeCharMeaning(' ');
    EncodeCharMeaning('\n');
    DecodeEncode(c);
  }

  /** A word's encoding splits back at spaces into its codes, each known, and decodes to the word in upper case. */
  lemma WordTrip(w: string)
    requires PlainWord(w)
    ensures Text.JavaSplit(WordText(w), " ") == CodesOf(w)
    ensures forall j :: 0 <= j < |CodesOf(w)| ==> Known(CodesOf(w)[j])
    ensures WordPlain(WordText(w)) == Text.UpperStr(w)
    ensures |WordText(w)| > 0 && '/' !in WordText(w) && '\n' !in WordText(w)
  {
    var cs := CodesOf(w);
    forall j | 0 <= j < |cs|
      ensures |cs[j]| > 0 && Signals(cs[j]) && Known(cs[j]) && DecodeChar(cs[j]) == Text.Upper(w[j])
    {
      CodeOfSupported(w[j]);
    }
    forall j | 0 <= j < |cs|
      ensures ' ' !in cs[j] && '/' !in cs[j] && '\n' !in cs[j]
    {
      assert Signals(cs[j]);
    }
    Text.SingleUnique(' ');
    Text.JavaSplitJoin(cs, " ", ' ', 0);
    assert CharsOf(cs) == Text.UpperStr(w);
    Text.JoinFirst(cs, " ");
    Text.JoinMembers(cs, " ", '/');
    Text.JoinMembers(cs, " ", '\n');
  }

  /** No word of a plain line holds a space. */
  lemma WordsSpaceFree(ws: seq<string>)
    requires forall l :: 0 <= l < |ws| ==> PlainWord(ws[l])
    ensures forall l :: 0 <= l < |ws| ==> ' ' !in ws[l] && '\n' !in ws[l]
  {
    forall l, i | 0 <= l < |ws| && 0 <= i < |ws[l]|
      ensures ws[l][i] != ' ' && ws[l][i] != '\n'
    {
      CodeOfSupported(ws[l][i]);
    }
  }

  /** " / " is marked by its slash. */
  lemma SlashUnique()
    ensures Text.UniqueAt(" / ", '/', 1)
  {
  }

  /** The encodings of the words of a plain line, word by word. */
  lemma WordTextsTrip(ws: seq<string>)
    requires forall l :: 0 <= l < |ws| ==> PlainWord(ws[l])
    ensures forall l :: 0 <= l < |ws| ==> |WordTexts(ws)[l]| > 0 && '/' !in WordTexts(ws)[l] && '\n' !in WordTexts(ws)[l]
    ensures forall l :: 0 <= l < |ws| ==> WordKnown(WordTexts(ws)[l])
    ensures WordPlains(WordTexts(ws)) == seq(|ws|, l requires 0 <= l < |ws| => Text.UpperStr(ws[l]))
  {
    var ts := WordTexts(ws);
    forall l | 0 <= l < |ws|
      ensures |ts[l]| > 0 && '/' !in ts[l] && '\n' !in ts[l]
      ensures WordKnown(ts[l]) && WordPlain(ts[l]) == Text.UpperStr(ws[l])
    {
      WordTrip(ws[l]);
    }
  }

  /** The encoding of a plain line splits back at " / " into its words' encodings and decodes to the line in upper case. */
  lemma LineTrip(ws: seq<string>)
    requires |ws| > 0 && forall l :: 0 <= l < |ws| ==> PlainWord(ws[l])
    ensures Text.JavaSplit(Text.Join(ws, " "), " ") == ws
    ensures Text.JavaSplit(LineText(Text.Join(ws, " ")), " / ") == WordTexts(ws)
    ensures LineKnown(LineText(Text.Join(ws, " ")))
    ensures LinePlain(LineText(Text.Join(ws, " "))) == Text.UpperStr(Text.Join(ws, " "))
    ensures |LineText(Text.Join(ws, " "))| > 0 && '\n' !in LineText(Text.Join(ws, " "))
  {
    var ts := WordTexts(ws);
    assert Text.JavaSplit(Text.Join(ws, " "), " ") == ws by {
      WordsSpaceFree(ws);
      Text.SingleUnique(' ');
      Text.JavaSplitJoin(ws, " ", ' ', 0);
    }
    var t := LineText(Text.Join(ws, " "));
    assert t == Text.Join(ts, " / ");
    WordTextsTrip(ws);
    assert Text.JavaSplit(t, " / ") == ts by {
      SlashUnique();
      Text.JavaSplitJoin(ts, " / ", '/', 1);
    }
    assert |t| > 0 && '\n' !in t by {
      Text.JoinFirst(ts, " / ");
      Text.JoinMembers(ts, " / ", '\n');
    }
    Text.UpperJoin(ws, " ");
  }

  /** The characters of a text made of plain lines other than newlines can be encoded. */
  lemma ComposeEncodable(L: seq<seq<string>>)
    requires Plain(L)
    ensures forall i :: 0 <= i < |Compose(L)| && Compose(L)[i] != '\n' ==> Encodable(Compose(L)[i])
  {
    var data := Compose(L);
    var ls := LinesOf(L);
    forall i | 0 <= i < |data| && data[i] != '\n'
      ensures Encodable(data[i])
    {
      var c := data[i];
      EncodeCharMeaning(' ');
      if c != ' ' {
        Text.JoinMembers(ls, "\n", c);
        var u :| 0 <= u < |ls| && c in ls[u];
        Text.JoinMembers(L[u], " ", c);
        var l :| 0 <= l < |L[u]| && c in L[u][l];
        var j :| 0 <= j < |L[u][l]| && L[u][l][j] == c;
        CodeOfSupported(c);
      }
    }
  }

  /** Each line of a plain text, as `LineTrip` describes it, non-empty and without newlines. */
  lemma LinesTrip(L: seq<seq<string>>)
    requires Plain(L)
    ensures forall u :: 0 <= u < |L| ==> Text.JavaSplit(LinesOf(L)[u], " ") == L[u]
    ensures forall u :: 0 <= u < |L| ==> LineKnown(LineText(LinesOf(L)[u]))
    ensures forall u :: 0 <= u < |L| ==> LinePlain(LineText(LinesOf(L)[u])) == Text.UpperStr(LinesOf(L)[u])
    ensures forall u :: 0 <= u < |L| ==> |LineText(LinesOf(L)[u])| > 0 && '\n' !in LineText(LinesOf(L)[u])
    ensures forall u :: 0 <= u < |L| ==> |LinesOf(L)[u]| > 0 && '\n' !in LinesOf(L)[u]
  {
    var ls := LinesOf(L);
    forall u | 0 <= u < |L|
      ensures Text.JavaSplit(ls[u], " ") == L[u]
      ensures LineKnown(LineText(ls[u])) && LinePlain(LineText(ls[u])) == Text.UpperStr(ls[u])
      ensures |LineText(ls[u])| > 0 && '\n' !in LineText(ls[u])
      ensures |ls[u]| > 0 && '\n' !in ls[u]
    {
      LineTrip(L[u]);
      WordsSpaceFree(L[u]);
      Text.JoinFirst(L[u], " ");
      Text.JoinMembers(L[u], " ", '\n');
    }
  }

  /** Lines whose encodings are known and decode to them in upper case decode, joined, to the joined lines in upper case. */
  lemma DecodeLineTexts(ls: seq<string>)
    requires |ls| > 0
    requires forall u :: 0 <= u < |ls| ==> LineKnown(LineText(ls[u]))
    requires forall u :: 0 <= u < |ls| ==> LinePlain(LineText(ls[u])) == Text.UpperStr(ls[u])
    requires forall u :: 0 <= u < |ls| ==> |LineText(ls[u])| > 0 && '\n' !in LineText(ls[u])
    ensures Decoded(Text.Join(LineTexts(ls), "\n")) == Ok(Text.UpperStr(Text.Join(ls, "\n")))
  {
    var lts := LineTexts(ls);
    var e := Text.Join(lts, "\n");
    assert Text.JavaSplit(e, "\n") == lts by {
      Text.SingleUnique('\n');
      Text.JavaSplitJoin(lts, "\n", '\n', 0);
    }
    DecodedMeaning(e);
    assert TextKnown(e);
    assert LinePlains(lts) == seq(|ls|, u requires 0 <= u < |ls| => Text.UpperStr(ls[u]));
    Text.UpperJoin(ls, "\n");
  }

  /**
   * Encoding a plain text succeeds, and decoding the result gives the
   * text back with its letters in upper case.
   */
  lemma RoundTrip(L: seq<seq<string>>)
    requires Plain(L)
    ensures Encoded(Compose(L)).Ok?
    ensures Decoded(Encoded(Compose(L)).value) == Ok(Text.UpperStr(Compose(L)))
  {
    var data := Compose(L);
    var ls := LinesOf(L);
    LinesTrip(L);
    assert Text.JavaSplit(data, "\n") == ls by {
      Text.SingleUnique('\n');
      Text.JavaSplitJoin(ls, "\n", '\n', 0);
    }
    ComposeEncodable(L);
    EncodedMeaning(data);
    assert Encoded(data).value == Text.Join(LineTexts(ls), "\n");
    DecodeLineTexts(ls);
  }
}

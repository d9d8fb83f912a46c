/**
 * `Constants`: the alphabets of the cipher code, and the arithmetic on
 * letter places that the ROT and Vigenère ciphers share.
 */
module Constants {
  import opened Jvm

  /** `Constants.LowerAlphabet`: the 26 letters from `a`; `Spelled` shows it is the literal `abc…z`. */
  function LowerAlphabet(): (s: string)
    ensures |s| == 26
  {
    seq(26, i requires 0 <= i < 26 => (97 + i) as char)
  }

  /** `Constants.UpperAlphabet`: the 26 letters from `A`. */
  function UpperAlphabet(): (s: string)
    ensures |s| == 26
  {
    seq(26, i requires 0 <= i < 26 => (65 + i) as char)
  }

  /** The alphabets are the two constants of the cipher code, letter for letter. */
  lemma Spelled()
    ensures LowerAlphabet() == "abcdefghijklmnopqrstuvwxyz"
    ensures UpperAlphabet() == "ABCDEFGHIJKLMNOPQRSTUVWXYZ"
  {
  }

  predicate IsLower(c: char)
  {
    'a' <= c <= 'z'
  }

  predicate IsUpper(c: char)
  {
    'A' <= c <= 'Z'
  }

  /** The alphabets hold exactly the ASCII letters of their case. */
  lemma InAlphabet(c: char)
    ensures c in LowerAlphabet() <==> IsLower(c)
    ensures c in UpperAlphabet() <==> IsUpper(c)
  {
    if IsLower(c) {
      assert LowerAlphabet()[c as int - 97] == c;
    }
    if IsUpper(c) {
      assert UpperAlphabet()[c as int - 65] == c;
    }
  }

  /** A letter's place in its alphabet. */
  function Index(c: char): int
  {
    if IsLower(c) then c as int - 97 else c as int - 65
  }

  /** The letter `s` places into the alphabet of `c`'s case. */
  function LetterOf(c: char, s: int): char
    requires 0 <= s < 26
  {
    if IsLower(c) then (97 + s) as char else (65 + s) as char
  }

  /** An index of at most 51 brought back into the alphabet, past `z` to `a`. */
  function Wrap(s: int): int
  {
    if s < 26 then s else s - 26
  }

  /** A place difference of more than -26 brought back into the alphabet, before `a` to `z`. */
  function Unwrap(s: int): int
  {
    if s < 0 then s + 26 else s
  }

  /** Java's `s % 26` for the indices a reduced step can reach. */
  lemma RemSmall(s: int)
    requires -26 < s < 52
    ensures Rem(s, 26) == if s < 0 then s else Wrap(s)
  {
    if s >= 26 {
      DivUnique(s, 26, 1, s - 26);
    } else if s >= 0 {
      DivUnique(s, 26, 0, s);
    } else {
      DivUnique(-s, 26, 0, -s);
    }
  }

  /** The letter at a place keeps the case it was asked for and sits at that place. */
  lemma LetterOfFacts(c: char, s: int)
    requires 0 <= s < 26
    ensures IsLower(LetterOf(c, s)) <==> IsLower(c)
    ensures IsLower(LetterOf(c, s)) || IsUpper(LetterOf(c, s))
    ensures Index(LetterOf(c, s)) == s
    ensures (IsLower(c) || IsUpper(c)) && s == Index(c) ==> LetterOf(c, s) == c
  {
  }
}

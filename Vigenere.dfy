/**
 * `Vigenere.Encrypt` and `Vigenere.Decrypt`: the Vigenère cipher. The key
 * is lower-cased and stretched to the data's length; each character whose
 * lower-cased low byte is a letter is shifted by the next key character,
 * and the key moves on only at such characters.
 */
module Vigenere {
  import opened Wrappers
  import opened Jvm
  import opened Constants
  import Text

  // ---------------------------------------------------------------------
  // The key
  // ---------------------------------------------------------------------

  /** `k` repeated from its start up to length `n`. */
  function Cycle(k: string, n: nat): (r: string)
    requires |k| > 0
    ensures |r| == n
  {
    seq(n, j requires 0 <= j < n => k[j % |k|])
  }

  /**
   * The key both methods use for data of length `n`: lower-cased, cut to
   * `n` characters when longer, and repeated when shorter; an empty key
   * cannot be repeated, and `key.charAt(0)` throws.
   */
  function Stretched(key: string, n: nat): (r: Result<string, Thrown>)
    ensures r.Ok? ==> |r.value| == n
  {
    var k := Text.LowerStr(key);
    if |k| > n then Ok(k[..n])
    else if |k| == n then Ok(k)
    else if |k| == 0 then Err(Raise(StringIndexOutOfBounds, IndexMessage(0)))
    else Ok(Cycle(k, n))
  }

  /** The key-stretching loop both methods start with: `key += key.charAt(i)`, with `i` going round the original length. */
  method StretchKey(key: string, n: nat) returns (r: Result<string, Thrown>)
    ensures r == Stretched(key, n)
  {
    var k := Text.LowerStr(key);
    ghost var k0 := k;
    if |k| > n {
      k := k[..n];
    }
    var i, mxi := 0, |k|;
    if 0 < mxi < n {
      CycleWhole(k0);
      DivUnique(mxi, mxi, 1, 0);
    }
    while |k| < n
      invariant |k0| >= n ==> |k| == n && k == (if |k0| > n then k0[..n] else k0)
      invariant |k0| < n ==> mxi == |k0| && mxi <= |k| <= n
      invariant |k0| < n && mxi == 0 ==> i == 0 && k == []
      invariant |k0| < n && mxi > 0 ==> 0 <= i < mxi && i == |k| % mxi && k == Cycle(k0, |k|)
      decreases n - |k|
    {
      var c := CharAt(k, i);
      if c.Err? {
        return Err(c.error);
      }
      DivUnique(i, mxi, 0, i);
      CycleSnoc(k0, |k|);
      ModStep(|k|, mxi);
      k := k + [c.value];
      i := i + 1;
      if i == mxi {
        i := 0;
      }
    }
    return Ok(k);
  }

  /** A key of the data's length repeats to itself. */
  lemma CycleWhole(k: string)
    requires |k| > 0
    ensures Cycle(k, |k|) == k
  {
    forall j | 0 <= j < |k|
      ensures Cycle(k, |k|)[j] == k[j]
    {
      DivUnique(j, |k|, 0, j);
    }
  }

  /** Appending the next character of the cycle lengthens the cycle by one. */
  lemma CycleSnoc(k: string, len: nat)
    requires |k| > 0
    ensures Cycle(k, len) + [k[len % |k|]] == Cycle(k, len + 1)
  {
  }

  /** Counting up by one: the remainder goes up by one, or round to 0. */
  lemma ModStep(a: nat, m: nat)
    requires m > 0
    ensures (a + 1) % m == if a % m + 1 == m then 0 else a % m + 1
  {
    var q, r := a / m, a % m;
    if r + 1 == m {
      DivUnique(a + 1, m, q + 1, 0);
    } else {
      DivUnique(a + 1, m, q, r + 1);
    }
  }

  /**
   * The stretched key exists exactly when the key is not empty or there is
   * no data; it has the data's length and holds the lower-cased key,
   * repeated from its start.
   */
  lemma StretchedMeaning(key: string, n: nat)
    ensures Stretched(key, n).Ok? <==> key != [] || n == 0
    ensures Stretched(key, n).Ok? ==>
      var k := Stretched(key, n).value;
      |k| == n && forall j :: 0 <= j < n ==> k[j] == Text.Lower(key[j % |key|])
  {
    if key != [] {
      var k := Stretched(key, n).value;
      forall j | 0 <= j < n
        ensures k[j] == Text.Lower(key[j % |key|])
      {
        if |key| >= n {
          DivUnique(j, |key|, 0, j);
        }
      }
    }
  }

  // ---------------------------------------------------------------------
  // One character
  // ---------------------------------------------------------------------

  /** `(byte) current` between 97 and 122: the letter test, made on the low byte of the lower-cased character. */
  predicate Counted(c: char)
  {
    97 <= ToByte(c as int) <= 122
  }

  /** `(byte) data.charAt(u) > 90 ? 97 : 65`: the output case follows the low byte of the original character. */
  function Base(orig: char): int
  {
    if ToByte(orig as int) > 90 then 97 else 65
  }

  /** One encrypted character: `(current + key - 194) % 26`, from the base of the original's case. */
  function EncryptChar(cur: char, orig: char, k: char): char
  {
    (Rem(cur as int + k as int - 194, 26) + Base(orig)) as char
  }

  /** One decrypted character: `(current - key) % 26`, moved up by 26 when negative, from the base of the original's case. */
  function DecryptChar(cur: char, orig: char, k: char): char
  {
    var mod := Rem(cur as int - k as int, 26);
    ((if mod < 0 then 26 + mod else mod) + Base(orig)) as char
  }

  datatype Direction = Encrypting | Decrypting

  function Shift(dir: Direction, cur: char, orig: char, k: char): char
  {
    if dir == Encrypting then EncryptChar(cur, orig, k) else DecryptChar(cur, orig, k)
  }

  /** Every character of the data is ASCII. */
  predicate Ascii(s: string)
  {
    forall i :: 0 <= i < |s| ==> s[i] as int < 128
  }

  /** For an ASCII character, the byte test counts exactly the letters, and the base is its case's. */
  lemma AsciiLetter(c: char)
    requires c as int < 128
    ensures Counted(Text.Lower(c)) <==> IsLower(c) || IsUpper(c)
    ensures IsLower(c) || IsUpper(c) ==> Base(c) == (if IsLower(c) then 97 else 65)
    ensures IsLower(c) || IsUpper(c) ==> IsLower(Text.Lower(c)) && Index(Text.Lower(c)) == Index(c)
  {
  }

  /** Encrypting an ASCII letter with a key letter moves it forward by the key letter's place, within its case. */
  lemma EncryptLetter(c: char, k: char)
    requires c as int < 128 && (IsLower(c) || IsUpper(c)) && IsLower(k)
    ensures 0 <= Wrap(Index(c) + Index(k)) < 26
    ensures EncryptChar(Text.Lower(c), c, k) == LetterOf(c, Wrap(Index(c) + Index(k)))
  {
    AsciiLetter(c);
    var s := Index(c) + Index(k);
    assert Text.Lower(c) as int + k as int - 194 == s;
    RemSmall(s);
  }

  /** Decrypting an ASCII letter with a key letter moves it back by the key letter's place, within its case. */
  lemma DecryptLetter(c: char, k: char)
    requires c as int < 128 && (IsLower(c) || IsUpper(c)) && IsLower(k)
    ensures 0 <= Unwrap(Index(c) - Index(k)) < 26
    ensures DecryptChar(Text.Lower(c), c, k) == LetterOf(c, Unwrap(Index(c) - Index(k)))
  {
    AsciiLetter(c);
    var s := Index(c) - Index(k);
    assert Text.Lower(c) as int - k as int == s;
    RemSmall(s);
  }

  /** Decrypting undoes encrypting, one letter at a time. */
  lemma DecryptEncryptLetter(c: char, k: char)
    requires c as int < 128 && (IsLower(c) || IsUpper(c)) && IsLower(k)
    ensures var e := EncryptChar(Text.Lower(c), c, k);
      e as int < 128 && (IsLower(e) || IsUpper(e)) && (IsLower(e) <==> IsLower(c))
      && DecryptChar(Text.Lower(e), e, k) == c
  {
    var t := Index(c);
    EncryptLetter(c, k);
    var e := LetterOf(c, Wrap(t + Index(k)));
    LetterOfFacts(c, Wrap(t + Index(k)));
    DecryptLetter(e, k);
    assert Unwrap(Index(e) - Index(k)) == t;
    assert LetterOf(e, t) == LetterOf(c, t);
    LetterOfFacts(c, t);
  }

  /** Encrypting undoes decrypting, one letter at a time. */
  lemma EncryptDecryptLetter(c: char, k: char)
    requires c as int < 128 && (IsLower(c) || IsUpper(c)) && IsLower(k)
    ensures var d := DecryptChar(Text.Lower(c), c, k);
      d as int < 128 && (IsLower(d) || IsUpper(d)) && (IsLower(d) <==> IsLower(c))
      && EncryptChar(Text.Lower(d), d, k) == c
  {
    var t := Index(c);
    DecryptLetter(c, k);
    var d := LetterOf(c, Unwrap(t - Index(k)));
    LetterOfFacts(c, Unwrap(t - Index(k)));
    EncryptLetter(d, k);
    assert Wrap(Index(d) + Index(k)) == t;
    assert LetterOf(d, t) == LetterOf(c, t);
    LetterOfFacts(c, t);
  }

  // ---------------------------------------------------------------------
  // The whole string
  // ---------------------------------------------------------------------

  /** How many characters of `s` pass the letter test: the key index after them. */
  function Letters(s: string): (r: nat)
    ensures r <= |s|
  {
    if s == [] then 0 else Letters(s[..|s| - 1]) + (if Counted(s[|s| - 1]) then 1 else 0)
  }

  /**
   * The `for` loop of both methods from index `u`, with key index `ki` and
   * `fin` built so far: a counted character is shifted by the key character
   * at `ki`, which then moves on; any other character is copied.
   */
  function CipherFrom(dir: Direction, data: string, low: string, key: string, u: nat, ki: nat, fin: string): string
    requires |low| == |data| == |key| && ki <= u <= |data|
    decreases |data| - u
  {
    if u == |data| then fin
    else if Counted(low[u]) then CipherFrom(dir, data, low, key, u + 1, ki + 1, fin + [Shift(dir, low[u], data[u], key[ki])])
    else CipherFrom(dir, data, low, key, u + 1, ki, fin + [data[u]])
  }

  /** What `Encrypt(data, key)` or `Decrypt(data, key)` returns or throws. */
  function Ciphered(dir: Direction, data: string, key: string): Result<string, Thrown>
  {
    match Stretched(key, |data|)
    case Err(e) => Err(e)
    case Ok(k) => Ok(CipherFrom(dir, data, Text.LowerStr(data), k, 0, 0, ""))
  }

  /** `Encrypt`: stretches the key, then shifts each counted character forward. */
  method Encrypt(data: string, key: string) returns (r: Result<string, Thrown>)
    ensures r == Ciphered(Encrypting, data, key)
  {
    var fin := "";
    var k := StretchKey(key, |data|);
    if k.Err? {
      return Err(k.error);
    }
    var lowData := Text.LowerStr(data);
    var keyIndex := 0;
    for u := 0 to |data|
      invariant keyIndex <= u
      invariant CipherFrom(Encrypting, data, lowData, k.value, u, keyIndex, fin) == CipherFrom(Encrypting, data, lowData, k.value, 0, 0, "")
    {
      var current := lowData[u];
      if Counted(current) {
        fin := fin + [EncryptChar(current, data[u], k.value[keyIndex])];
        keyIndex := keyIndex + 1;
      } else {
        fin := fin + [data[u]];
      }
    }
    return Ok(fin);
  }

  /** `Decrypt`: stretches the key, then shifts each counted character back. */
  method Decrypt(data: string, key: string) returns (r: Result<string, Thrown>)
    ensures r == Ciphered(Decrypting, data, key)
  {
    var fin := "";
    var k := StretchKey(key, |data|);
    if k.Err? {
      return Err(k.error);
    }
    var lowData := Text.LowerStr(data);
    var keyIndex := 0;
    for u := 0 to |data|
      invariant keyIndex <= u
      invariant CipherFrom(Decrypting, data, lowData, k.value, u, keyIndex, fin) == CipherFrom(Decrypting, data, lowData, k.value, 0, 0, "")
    {
      var current := lowData[u];
      if Counted(current) {
        var mod := Rem(current as int - k.value[keyIndex] as int, 26);
        if mod < 0 {
          mod := 26 + mod;
        }
        fin := fin + [(mod + Base(data[u])) as char];
        keyIndex := keyIndex + 1;
      } else {
        fin := fin + [data[u]];
      }
    }
    return Ok(fin);
  }

  /** Output character `j`: counted characters are shifted by the key character at the number of counted characters before them. */
  function Out(dir: Direction, data: string, low: string, key: string, j: nat): char
    requires |low| == |data| == |key| && j < |data|
  {
    var ki := Letters(low[..j]);
    if Counted(low[j]) then Shift(dir, low[j], data[j], key[ki]) else data[j]
  }

  lemma LettersStep(low: string, u: nat)
    requires u < |low|
    ensures Letters(low[..u + 1]) == Letters(low[..u]) + (if Counted(low[u]) then 1 else 0)
  {
    assert low[..u + 1][..u] == low[..u];
  }

  /** The loop from `u` appends one output character per remaining input character. */
  lemma {:induction false} CipherFromMeaning(dir: Direction, data: string, low: string, key: string, u: nat, ki: nat, fin: string)
    requires |low| == |data| == |key| && u <= |data| && ki == Letters(low[..u])
    ensures var r := CipherFrom(dir, data, low, key, u, ki, fin);
      |r| == |fin| + |data| - u && r[..|fin|] == fin
      && forall j :: u <= j < |data| ==> r[|fin| + j - u] == Out(dir, data, low, key, j)
    decreases |data| - u
  {
    if u < |data| {
      LettersStep(low, u);
      var c := Out(dir, data, low, key, u);
      var ki' := if Counted(low[u]) then ki + 1 else ki;
      var fin' := fin + [c];
      assert CipherFrom(dir, data, low, key, u, ki, fin) == CipherFrom(dir, data, low, key, u + 1, ki', fin');
      CipherFromMeaning(dir, data, low, key, u + 1, ki', fin');
      var r := CipherFrom(dir, data, low, key, u, ki, fin);
      assert r[..|fin'|][..|fin|] == fin;
      assert r[|fin|] == r[..|fin'|][|fin|];
    }
  }

  /**
   * Both methods throw exactly when the key is empty and the data is not;
   * otherwise the result has the data's length, copies every character
   * that fails the letter test, and shifts the others by the stretched key
   * character whose index counts the shifted characters before them.
   */
  lemma CipheredMeaning(dir: Direction, data: string, key: string)
    ensures Ciphered(dir, data, key).Ok? <==> key != [] || data == []
    ensures key == [] && data != [] ==> Ciphered(dir, data, key) == Err(Raise(StringIndexOutOfBounds, IndexMessage(0)))
    ensures Ciphered(dir, data, key).Ok? ==>
      var r, low, k := Ciphered(dir, data, key).value, Text.LowerStr(data), Stretched(key, |data|).value;
      |r| == |data| && forall j :: 0 <= j < |data| ==> r[j] == Out(dir, data, low, k, j)
  {
    StretchedMeaning(key, |data|);
    if Stretched(key, |data|).Ok? {
      var low := Text.LowerStr(data);
      assert low[..0] == [];
      CipherFromMeaning(dir, data, low, Stretched(key, |data|).value, 0, 0, "");
    }
  }

  /** Every key character is an ASCII letter, in either case. */
  predicate Alphabetic(key: string)
  {
    forall i :: 0 <= i < |key| ==> IsLower(Text.Lower(key[i]))
  }

  /** The stretched form of an alphabetic key holds only lower-case letters. */
  lemma StretchedLetters(key: string, n: nat)
    requires key != [] && Alphabetic(key)
    ensures Stretched(key, n).Ok?
    ensures forall j :: 0 <= j < n ==> IsLower(Stretched(key, n).value[j])
  {
    StretchedMeaning(key, n);
  }

  /**
   * For ASCII data and an alphabetic key: non-letters are copied, and each
   * letter comes out as a letter of the same case.
   */
  lemma CasePreserved(dir: Direction, data: string, key: string)
    requires Ascii(data) && key != [] && Alphabetic(key)
    ensures Ciphered(dir, data, key).Ok?
    ensures var r := Ciphered(dir, data, key).value;
      |r| == |data|
      && (forall j :: 0 <= j < |data| && !(IsLower(data[j]) || IsUpper(data[j])) ==> r[j] == data[j])
      && (forall j :: 0 <= j < |data| && IsLower(data[j]) ==> IsLower(r[j]))
      && (forall j :: 0 <= j < |data| && IsUpper(data[j]) ==> IsUpper(r[j]))
  {
    CipheredMeaning(dir, data, key);
    StretchedLetters(key, |data|);
    var r, low, k := Ciphered(dir, data, key).value, Text.LowerStr(data), Stretched(key, |data|).value;
    forall j | 0 <= j < |data|
      ensures !(IsLower(data[j]) || IsUpper(data[j])) ==> r[j] == data[j]
      ensures IsLower(data[j]) || IsUpper(data[j]) ==> (IsLower(r[j]) || IsUpper(r[j])) && (IsLower(r[j]) <==> IsLower(data[j]))
    {
      AsciiLetter(data[j]);
      if IsLower(data[j]) || IsUpper(data[j]) {
        var kc := k[Letters(low[..j])];
        EncryptLetter(data[j], kc);
        DecryptLetter(data[j], kc);
        LetterOfFacts(data[j], Wrap(Index(data[j]) + Index(kc)));
        LetterOfFacts(data[j], Unwrap(Index(data[j]) - Index(kc)));
      }
    }
  }

  /** Two strings whose characters pass the letter test at the same places count the same number of them. */
  lemma {:induction false} LettersSame(a: string, b: string)
    requires |a| == |b| && forall i :: 0 <= i < |a| ==> (Counted(a[i]) <==> Counted(b[i]))
    ensures Letters(a) == Letters(b)
    decreases |a|
  {
    if a != [] {
      var n := |a| - 1;
      LettersSame(a[..n], b[..n]);
    }
  }

  /** The other direction, applied to the output of one direction. */
  function Opposite(dir: Direction): Direction
  {
    if dir == Encrypting then Decrypting else Encrypting
  }

  /**
   * For ASCII data and an alphabetic key, decrypting what was encrypted
   * with the same key gives the data back, and so does encrypting what was
   * decrypted.
   */
  lemma RoundTrip(dir: Direction, data: string, key: string)
    requires Ascii(data) && key != [] && Alphabetic(key)
    ensures Ciphered(dir, data, key).Ok?
    ensures Ciphered(Opposite(dir), Ciphered(dir, data, key).value, key) == Ok(data)
  {
    CipheredMeaning(dir, data, key);
    StretchedLetters(key, |data|);
    var e := Ciphered(dir, data, key).value;
    var low, k := Text.LowerStr(data), Stretched(key, |data|).value;
    var lowE := Text.LowerStr(e);
    forall j | 0 <= j < |data|
      ensures e[j] as int < 128 && (Counted(lowE[j]) <==> Counted(low[j]))
      ensures Counted(low[j]) ==> e[j] == Shift(dir, low[j], data[j], k[Letters(low[..j])])
      ensures !Counted(low[j]) ==> e[j] == data[j]
    {
      AsciiLetter(data[j]);
      if IsLower(data[j]) || IsUpper(data[j]) {
        var kc := k[Letters(low[..j])];
        DecryptEncryptLetter(data[j], kc);
        EncryptDecryptLetter(data[j], kc);
      }
      AsciiLetter(e[j]);
    }
    forall j | 0 <= j <= |data|
      ensures Letters(lowE[..j]) == Letters(low[..j])
    {
      LettersSame(lowE[..j], low[..j]);
    }
    CipheredMeaning(Opposite(dir), e, key);
    assert Stretched(key, |e|).value == k;
    var d := Ciphered(Opposite(dir), e, key).value;
    forall j | 0 <= j < |data|
      ensures d[j] == data[j]
    {
      AsciiLetter(data[j]);
      var kc := k[Letters(low[..j])];
      assert d[j] == Out(Opposite(dir), e, lowE, k, j);
      if IsLower(data[j]) || IsUpper(data[j]) {
        DecryptEncryptLetter(data[j], kc);
        EncryptDecryptLetter(data[j], kc);
        assert lowE[j] == Text.Lower(e[j]) && low[j] == Text.Lower(data[j]);
        assert d[j] == Shift(Opposite(dir), Text.Lower(e[j]), e[j], kc);
        assert e[j] == Shift(dir, Text.Lower(data[j]), data[j], kc);
      }
    }
    assert d == data;
  }
}

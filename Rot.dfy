/**
 * `ROT.Run`: the ROT cipher. Each ASCII letter moves `n` places along its
 * own case's alphabet, and every other character is copied. The step is
 * first reduced with Java's `%`, which keeps the sign of `n`, so a negative
 * step can index before the start of the alphabet, and then `charAt` throws.
 */
module Rot {
  import opened Wrappers
  import opened Jvm
  import opened Constants

  /**
   * One character for the reduced step `m`: a letter is looked up in its
   * alphabet at `(index + m) % 26`. The alphabet test `contains` is written
   * as the range of letters it holds (`Constants.InAlphabet` shows they agree).
   */
  function RotChar(c: char, m: int): Result<char, Thrown>
  {
    if IsLower(c) then CharAt(LowerAlphabet(), Rem(ToByte(c as int) - 97 + m, 26))
    else if IsUpper(c) then CharAt(UpperAlphabet(), Rem(ToByte(c as int) - 65 + m, 26))
    else Ok(c)
  }

  /** The `Run` loop from index `u`, with `fin` built so far: the first `charAt` that throws ends it. */
  function RotFrom(data: string, m: int, u: nat, fin: string): Result<string, Thrown>
    requires u <= |data|
    decreases |data| - u
  {
    if u == |data| then Ok(fin)
    else
      match RotChar(data[u], m)
      case Err(e) => Err(e)
      case Ok(c) => RotFrom(data, m, u + 1, fin + [c])
  }

  /** What `Run(data, n)` returns or throws: a step that `n %= 26` reduces to 0 returns the data itself. */
  function Rotated(data: string, n: Int32): Result<string, Thrown>
  {
    var m := Rem(n, 26);
    if m == 0 then Ok(data) else RotFrom(data, m, 0, "")
  }

  /** `Run`: reduces the step, then appends one character per input character. */
  method Run(data: string, n: Int32) returns (r: Result<string, Thrown>)
    ensures r == Rotated(data, n)
  {
    var fin := "";
    var m := Rem(n, 26);
    if m == 0 {
      return Ok(data);
    }
    for u := 0 to |data|
      invariant RotFrom(data, m, u, fin) == Rotated(data, n)
    {
      var c := RotChar(data[u], m);
      if c.Err? {
        return Err(c.error);
      }
      fin := fin + [c.value];
    }
    return Ok(fin);
  }

  // ---------------------------------------------------------------------
  // One character
  // ---------------------------------------------------------------------

  /** A letter moved by a step whose index leaves the alphabet below 0: `charAt` rejects that index. */
  predicate Falls(c: char, m: int)
  {
    (IsLower(c) || IsUpper(c)) && Index(c) + m < 0
  }

  /**
   * For a reduced step: a character that is not an ASCII letter is kept; a
   * letter moves `m` places within its own case's alphabet, wrapping past
   * `z`; a letter whose index plus `m` is negative throws with that index.
   */
  lemma RotCharMeaning(c: char, m: int)
    requires -26 < m < 26
    ensures !(IsLower(c) || IsUpper(c)) ==> RotChar(c, m) == Ok(c)
    ensures Falls(c, m) ==> RotChar(c, m) == Err(Raise(StringIndexOutOfBounds, IndexMessage(Index(c) + m)))
    ensures (IsLower(c) || IsUpper(c)) && !Falls(c, m) ==> 0 <= Wrap(Index(c) + m) < 26 && RotChar(c, m) == Ok(LetterOf(c, Wrap(Index(c) + m)))
  {
    if IsLower(c) || IsUpper(c) {
      var s := Index(c) + m;
      var alphabet := if IsLower(c) then LowerAlphabet() else UpperAlphabet();
      assert ToByte(c as int) == c as int;
      assert RotChar(c, m) == CharAt(alphabet, Rem(s, 26));
      RemSmall(s);
    }
  }

  /** A step of 0 keeps every character. */
  lemma RotCharZero(c: char)
    ensures RotChar(c, 0) == Ok(c)
  {
    RotCharMeaning(c, 0);
    if IsLower(c) || IsUpper(c) {
      LetterOfFacts(c, Index(c));
    }
  }

  /** A letter that does not fall off the alphabet moves within it. */
  lemma RotLetter(d: char, k: int)
    requires -26 < k < 26 && (IsLower(d) || IsUpper(d)) && Index(d) + k >= 0
    ensures 0 <= Wrap(Index(d) + k) < 26 && RotChar(d, k) == Ok(LetterOf(d, Wrap(Index(d) + k)))
  {
    RotCharMeaning(d, k);
  }

  /** A letter rotated by `m` and then by `26 - m` is the letter again. */
  lemma RotCharInverse(c: char, m: int)
    requires 0 < m < 26
    ensures RotChar(c, m).Ok?
    ensures RotChar(RotChar(c, m).value, 26 - m) == Ok(c)
  {
    if IsLower(c) || IsUpper(c) {
      var t := Index(c);
      RotLetter(c, m);
      var d := LetterOf(c, Wrap(t + m));
      LetterOfFacts(c, Wrap(t + m));
      Back(c, d, t, m);
    } else {
      RotCharMeaning(c, m);
      RotCharMeaning(c, 26 - m);
    }
  }

  /** The second half of the round trip, for a rotated letter `d` of the same case as `c`. */
  lemma Back(c: char, d: char, t: int, m: int)
    requires 0 < m < 26 && (IsLower(c) || IsUpper(c)) && t == Index(c)
    requires (IsLower(d) || IsUpper(d)) && (IsLower(d) <==> IsLower(c)) && Index(d) == Wrap(t + m)
    ensures RotChar(d, 26 - m) == Ok(c)
  {
    RotLetter(d, 26 - m);
    assert Wrap(Index(d) + (26 - m)) == t;
    assert LetterOf(d, t) == LetterOf(c, t);
    LetterOfFacts(c, t);
  }

  // ---------------------------------------------------------------------
  // The whole string
  // ---------------------------------------------------------------------

  /** Every character from `u` on has a rotation. */
  predicate AllRotate(data: string, m: int, u: nat)
  {
    forall i :: u <= i < |data| ==> RotChar(data[i], m).Ok?
  }

  lemma AllRotateStep(data: string, m: int, u: nat)
    requires u < |data|
    ensures AllRotate(data, m, u) <==> RotChar(data[u], m).Ok? && AllRotate(data, m, u + 1)
  {
  }

  /** The loop from `u` succeeds exactly when every remaining character rotates, and then appends their rotations in order. */
  lemma {:induction false} RotFromMeaning(data: string, m: int, u: nat, fin: string)
    requires u <= |data|
    ensures RotFrom(data, m, u, fin).Ok? <==> AllRotate(data, m, u)
    ensures RotFrom(data, m, u, fin).Ok? ==>
      var r := RotFrom(data, m, u, fin).value;
      |r| == |fin| + |data| - u && r[..|fin|] == fin
      && forall i :: u <= i < |data| ==> r[|fin| + i - u] == RotChar(data[i], m).value
    decreases |data| - u
  {
    if u < |data| {
      var c := RotChar(data[u], m);
      AllRotateStep(data, m, u);
      if c.Ok? {
        var fin' := fin + [c.value];
        RotFromMeaning(data, m, u + 1, fin');
        if RotFrom(data, m, u, fin).Ok? {
          var r := RotFrom(data, m, u, fin).value;
          assert r[..|fin'|][..|fin|] == fin;
          assert r[|fin|] == r[..|fin'|][|fin|];
        }
      }
    }
  }

  /**
   * `Run` succeeds exactly when every character rotates by the reduced
   * step; the result has the data's length and is rotated character by
   * character.
   */
  lemma RotatedMeaning(data: string, n: Int32)
    ensures Rotated(data, n).Ok? <==> AllRotate(data, Rem(n, 26), 0)
    ensures Rotated(data, n).Ok? ==>
      var r := Rotated(data, n).value;
      |r| == |data| && forall i :: 0 <= i < |data| ==> r[i] == RotChar(data[i], Rem(n, 26)).value
  {
    var m := Rem(n, 26);
    if m == 0 {
      AllKept(data);
      assert Rotated(data, n) == Ok(data);
    } else {
      RotFromMeaning(data, m, 0, "");
    }
  }

  /** With a step of 0 every character rotates to itself. */
  lemma AllKept(data: string)
    ensures AllRotate(data, 0, 0)
    ensures forall i :: 0 <= i < |data| ==> RotChar(data[i], 0).value == data[i]
  {
    forall i | 0 <= i < |data|
      ensures RotChar(data[i], 0) == Ok(data[i])
    {
      RotCharZero(data[i]);
    }
  }

  /** A step whose reduction is 0 (a multiple of 26) returns the data unchanged. */
  lemma MultipleOf26(data: string, n: Int32)
    requires n % 26 == 0
    ensures Rotated(data, n) == Ok(data)
  {
    if n < 0 {
      DivUnique(-n, 26, -(n / 26), 0);
    }
  }

  /** A non-negative step never throws, keeps the length, copies non-letters and keeps each letter's case. */
  lemma NonNegativeStep(data: string, n: Int32)
    requires n >= 0
    ensures Rotated(data, n).Ok?
    ensures var r := Rotated(data, n).value;
      |r| == |data|
      && (forall i :: 0 <= i < |data| && !(IsLower(data[i]) || IsUpper(data[i])) ==> r[i] == data[i])
      && (forall i :: 0 <= i < |data| && IsLower(data[i]) ==> IsLower(r[i]))
      && (forall i :: 0 <= i < |data| && IsUpper(data[i]) ==> IsUpper(r[i]))
  {
    var m := Rem(n, 26);
    forall i | 0 <= i < |data|
      ensures RotChar(data[i], m).Ok?
      ensures !(IsLower(data[i]) || IsUpper(data[i])) ==> RotChar(data[i], m).value == data[i]
      ensures IsLower(data[i]) ==> IsLower(RotChar(data[i], m).value)
      ensures IsUpper(data[i]) ==> IsUpper(RotChar(data[i], m).value)
    {
      RotCharMeaning(data[i], m);
    }
    RotatedMeaning(data, n);
  }

  /** Rotating by `n` and then by `26 - n` gives the data back. */
  lemma RoundTrip(data: string, n: Int32)
    requires 0 < n < 26
    ensures Rotated(data, n).Ok?
    ensures Rotated(Rotated(data, n).value, 26 - n) == Ok(data)
  {
    assert Rem(n, 26) == n;
    assert Rem(26 - n, 26) == 26 - n;
    RotatedMeaning(data, n);
    forall i | 0 <= i < |data|
      ensures RotChar(data[i], n).Ok?
    {
      RotCharInverse(data[i], n);
    }
    var e := Rotated(data, n).value;
    RotatedMeaning(e, 26 - n);
    forall i | 0 <= i < |e|
      ensures RotChar(e[i], 26 - n) == Ok(data[i])
    {
      RotCharInverse(data[i], n);
    }
    assert Rotated(e, 26 - n).value == data;
  }

  /** ROT13 undoes itself. */
  lemma Rot13Involution(data: string)
    ensures Rotated(data, 13).Ok?
    ensures Rotated(Rotated(data, 13).value, 13) == Ok(data)
  {
    RoundTrip(data, 13);
  }

  /** With a negative reduced step, the first letter that falls before `a` or `A` makes `Run` throw, naming its index. */
  lemma RotatedRefused(data: string, n: Int32, i: nat)
    requires Rem(n, 26) < 0
    requires i < |data| && Falls(data[i], Rem(n, 26))
    requires forall j :: 0 <= j < i ==> !Falls(data[j], Rem(n, 26))
    ensures Rotated(data, n) == Err(Raise(StringIndexOutOfBounds, IndexMessage(Index(data[i]) + Rem(n, 26))))
  {
    var m := Rem(n, 26);
    forall j | 0 <= j < i
      ensures RotChar(data[j], m).Ok?
    {
      RotCharMeaning(data[j], m);
    }
    RotCharMeaning(data[i], m);
    RotFromFails(data, m, 0, "", i);
  }

  /** The loop throws the error of the first character that does not rotate. */
  lemma {:induction false} RotFromFails(data: string, m: int, u: nat, fin: string, i: nat)
    requires u <= i < |data| && RotChar(data[i], m).Err?
    requires forall j :: u <= j < i ==> RotChar(data[j], m).Ok?
    ensures RotFrom(data, m, u, fin) == Err(RotChar(data[i], m).error)
    decreases i - u
  {
    if u < i {
      RotFromStep(data, m, u, fin);
      RotFromFails(data, m, u + 1, fin + [RotChar(data[u], m).value], i);
    }
  }

  /** One turn of the `Run` loop on a character that rotates. */
  lemma RotFromStep(data: string, m: int, u: nat, fin: string)
    requires u < |data| && RotChar(data[u], m).Ok?
    ensures RotFrom(data, m, u, fin) == RotFrom(data, m, u + 1, fin + [RotChar(data[u], m).value])
  {
  }
}

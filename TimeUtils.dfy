/**
 * `TimeUtils.GetTimeString`: a number of nanoseconds written as days,
 * hours, minutes, seconds, milliseconds, microseconds and nanoseconds,
 * largest first, leaving out the units whose count is zero.
 */
module TimeUtils {
  import opened Jvm
  import Text

  /** The length of each unit in nanoseconds, largest first. */
  const Units: seq<int> := [86400000000000, 3600000000000, 60000000000, 1000000000, 1000000, 1000, 1]

  /** The singular name of each unit; the plural adds an `s`. */
  const Names: seq<string> := ["day", "hour", "minute", "second", "millisecond", "microsecond", "nanosecond"]

  /** One part: the count, a space, and the unit's name, singular exactly when the count is 1. */
  function Named(count: int, i: nat): string
    requires i < 7
  {
    DecimalString(count) + " " + (if count != 1 then Names[i] + "s" else Names[i])
  }

  /** The counts of units `i` onwards: `tmp = ns / unit` truncates, then `ns -= unit * tmp` keeps the remainder. */
  function Counts(ns: int, i: nat): (c: seq<int>)
    requires i <= 7
    ensures |c| == 7 - i
    decreases 7 - i
  {
    if i == 7 then [] else [Quot(ns, Units[i])] + Counts(Rem(ns, Units[i]), i + 1)
  }

  /** The parts written for units `i` onwards, in order: one per non-zero count. */
  function Parts(ns: int, i: nat): seq<string>
    requires i <= 7
    decreases 7 - i
  {
    if i == 7 then [] else Part(Quot(ns, Units[i]), i) + Parts(Rem(ns, Units[i]), i + 1)
  }

  /** What one block writes: nothing for a zero count. */
  function Part(count: int, i: nat): seq<string>
    requires i < 7
  {
    if count != 0 then [Named(count, i)] else []
  }

  /** `String.join`, appending one more part at the end. */
  lemma {:induction false} JoinSnoc(parts: seq<string>, p: string, sep: string)
    ensures Text.Join(parts + [p], sep) == if parts == [] then p else Text.Join(parts, sep) + sep + p
  {
    if |parts| > 1 {
      assert (parts + [p])[1..] == parts[1..] + [p];
      JoinSnoc(parts[1..], p, sep);
    } else if |parts| == 1 {
      assert (parts + [p])[1..] == [p];
    }
  }

  /** `Join` of non-empty parts is empty exactly when there are none. */
  lemma JoinEmpty(parts: seq<string>, sep: string)
    requires NonEmpty(parts)
    ensures Text.Join(parts, sep) == [] <==> parts == []
  {
    if |parts| > 1 {
      assert parts[0] != [];
    }
  }

  /** Every written part is non-empty. */
  predicate NonEmpty(parts: seq<string>)
  {
    forall k :: 0 <= k < |parts| ==> parts[k] != []
  }

  /** The unit name written after a count. */
  function UnitName(count: int, i: nat): string
    requires i < 7
  {
    if count != 1 then Names[i] + "s" else Names[i]
  }

  /** Appending a block's part to the joined parts, as the builder does. */
  lemma AppendPart(done: seq<string>, tmp: int, i: nat)
    requires i < 7 && NonEmpty(done) && tmp != 0
    ensures var b := Text.Join(done, ", ");
      Text.Join(done + Part(tmp, i), ", ") == (if |b| > 0 then b + ", " else b) + DecimalString(tmp) + " " + UnitName(tmp, i)
    ensures NonEmpty(done + Part(tmp, i))
  {
    var b := Text.Join(done, ", ");
    JoinEmpty(done, ", ");
    JoinSnoc(done, Named(tmp, i), ", ");
    var a := if |b| > 0 then b + ", " else b;
    Concat4(a, DecimalString(tmp), " ", UnitName(tmp, i));
  }

  lemma Concat4(a: string, b: string, c: string, d: string)
    ensures a + b + c + d == a + (b + c + d)
  {
  }

  /**
   * One block of `GetTimeString`: the count of unit `i` is appended, after
   * ", " when something has been written already, and `ns` keeps the rest.
   */
  method AppendUnit(exTime: string, ns: Int64, i: nat, ghost done: seq<string>) returns (exTime': string, ns': Int64, ghost done': seq<string>)
    requires i < 7
    requires exTime == Text.Join(done, ", ") && NonEmpty(done)
    ensures exTime' == Text.Join(done', ", ") && NonEmpty(done')
    ensures done' + Parts(ns', i + 1) == done + Parts(ns, i)
  {
    var tmp := Quot(ns, Units[i]);
    exTime' := exTime;
    if tmp != 0 {
      AppendPart(done, tmp, i);
      if |exTime'| > 0 {
        exTime' := exTime' + ", ";
      }
      exTime' := exTime' + DecimalString(tmp) + " " + UnitName(tmp, i);
    } else {
      assert done + Part(tmp, i) == done;
    }
    done' := done + Part(tmp, i);
    Subtracted(ns, Units[i]);
    ns' := ns - Units[i] * tmp;
    ghost var r := Rem(ns, Units[i]);
    PartsStep(ns, i);
    assert Parts(ns, i) == Part(tmp, i) + Parts(r, i + 1);
    Assoc(done, Part(tmp, i), Parts(r, i + 1));
  }

  /** `ns -= d * (ns / d)` leaves Java's remainder, which is no larger than `ns` in magnitude. */
  lemma Subtracted(ns: Int64, d: int)
    requires d > 0
    ensures ns - d * Quot(ns, d) == Rem(ns, d)
    ensures -0x8000_0000_0000_0000 <= Rem(ns, d) < 0x8000_0000_0000_0000
  {
    var q := Quot(ns, d);
    assert q * d == d * q;
    if ns >= 0 {
      DivBounds(ns, d);
    } else {
      var a: int := -(ns as int);
      DivBounds(a, d);
      assert q * d == -(a / d * d);
    }
  }

  /** Euclidean division of a non-negative number: the quotient is non-negative and its multiple does not exceed the number. */
  lemma DivBounds(a: int, d: int)
    requires a >= 0 && d > 0
    ensures 0 <= a / d && 0 <= a / d * d <= a
  {
    var q, r := a / d, a % d;
    assert a == d * q + r && 0 <= r < d;
    assert q * d == d * q;
    assert d * q >= 0;
  }

  lemma PartsStep(ns: int, i: nat)
    requires i < 7
    ensures Parts(ns, i) == Part(Quot(ns, Units[i]), i) + Parts(Rem(ns, Units[i]), i + 1)
  {
  }

  lemma Assoc(a: seq<string>, b: seq<string>, c: seq<string>)
    ensures a + b + c == a + (b + c)
  {
  }

  /**
   * `GetTimeString`: the non-zero parts, largest unit first, joined with
   * ", ". The last block takes the remaining nanoseconds as they are, which
   * is their quotient by 1.
   */
  method GetTimeString(nanoseconds: Int64) returns (s: string)
    ensures s == Text.Join(Parts(nanoseconds, 0), ", ")
  {
    var exTime, ns := "", nanoseconds;
    ghost var done: seq<string> := [];
    ghost var whole := Parts(nanoseconds, 0);
    assert whole == done + Parts(ns, 0);
    exTime, ns, done := AppendUnit(exTime, ns, 0, done);
    assert whole == done + Parts(ns, 1);
    exTime, ns, done := AppendUnit(exTime, ns, 1, done);
    assert whole == done + Parts(ns, 2);
    exTime, ns, done := AppendUnit(exTime, ns, 2, done);
    assert whole == done + Parts(ns, 3);
    exTime, ns, done := AppendUnit(exTime, ns, 3, done);
    assert whole == done + Parts(ns, 4);
    exTime, ns, done := AppendUnit(exTime, ns, 4, done);
    assert whole == done + Parts(ns, 5);
    exTime, ns, done := AppendUnit(exTime, ns, 5, done);
    assert whole == done + Parts(ns, 6);
    exTime, ns, done := AppendUnit(exTime, ns, 6, done);
    assert whole == done + Parts(ns, 7);
    assert Parts(ns, 7) == [] && done + [] == done;
    return exTime;
  }

  /** No time gives the empty string. */
  lemma ZeroIsEmpty()
    ensures Text.Join(Parts(0, 0), ", ") == ""
  {
    assert Parts(0, 6) == [];
    assert Parts(0, 3) == [];
  }

  /** The counts weighed by their units add up to the input, whatever its sign. */
  lemma {:induction false} CountsAddUp(ns: int, i: nat)
    requires i < 7
    ensures Weighed(Counts(ns, i), i) == ns
    decreases 7 - i
  {
    var q, r := Quot(ns, Units[i]), Rem(ns, Units[i]);
    if i < 6 {
      CountsAddUp(r, i + 1);
    } else {
      assert r == 0;
    }
    assert Counts(ns, i)[1..] == Counts(r, i + 1);
  }

  /** The sum of `c[j] · Units[i + j]`. */
  function Weighed(c: seq<int>, i: nat): int
    requires i + |c| <= 7
  {
    if c == [] then 0 else c[0] * Units[i] + Weighed(c[1..], i + 1)
  }

  /** From a non-negative input below the next larger unit, each count stays below its unit's ratio to the one before. */
  lemma {:induction false} CountsInRange(ns: int, i: nat)
    requires i < 7 && 0 <= ns && (i > 0 ==> ns < Units[i - 1])
    ensures forall j :: 0 <= j < 7 - i ==> 0 <= Counts(ns, i)[j] && (i + j > 0 ==> Counts(ns, i)[j] * Units[i + j] < Units[i + j - 1])
    decreases 7 - i
  {
    var q, r := Quot(ns, Units[i]), Rem(ns, Units[i]);
    assert Counts(ns, i)[0] == q;
    if i < 6 {
      CountsInRange(r, i + 1);
      assert Counts(ns, i)[1..] == Counts(r, i + 1);
    }
  }

  /** For a non-negative input: hours below 24, minutes and seconds below 60, the three sub-second counts below 1000. */
  lemma TimeRanges(ns: int)
    requires ns >= 0
    ensures var c := Counts(ns, 0);
      c[0] >= 0 && 0 <= c[1] < 24 && 0 <= c[2] < 60 && 0 <= c[3] < 60
      && 0 <= c[4] < 1000 && 0 <= c[5] < 1000 && 0 <= c[6] < 1000
  {
    CountsInRange(ns, 0);
    var c := Counts(ns, 0);
    assert c[1] * Units[1] < Units[0];
    assert c[2] * Units[2] < Units[1];
    assert c[3] * Units[3] < Units[2];
    assert c[4] * Units[4] < Units[3];
    assert c[5] * Units[5] < Units[4];
    assert c[6] * Units[6] < Units[5];
  }
}

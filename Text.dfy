/**
 * String helpers of the Java library as the Exom code uses them:
 * ASCII case mapping, `String.split` with a literal separator, and
 * joining with a separator.
 */
module Text {

  /** `Character.toLowerCase` restricted to ASCII. */
  function Lower(c: char): char
  {
    if 'A' <= c <= 'Z' then (c as int + 32) as char else c
  }

  /** `Character.toUpperCase` restricted to ASCII. */
  function Upper(c: char): char
  {
    if 'a' <= c <= 'z' then (c as int - 32) as char else c
  }

  /** `String.toLowerCase` restricted to ASCII. */
  function LowerStr(s: string): (r: string)
    ensures |r| == |s|
    ensures forall i :: 0 <= i < |s| ==> r[i] == Lower(s[i])
  {
    seq(|s|, i requires 0 <= i < |s| => Lower(s[i]))
  }

  /** `String.toUpperCase` restricted to ASCII. */
  function UpperStr(s: string): (r: string)
    ensures |r| == |s|
    ensures forall i :: 0 <= i < |s| ==> r[i] == Upper(s[i])
  {
    seq(|s|, i requires 0 <= i < |s| => Upper(s[i]))
  }

  predicate StartsWith(s: string, p: string)
  {
    |p| <= |s| && s[..|p|] == p
  }

  /** `String.join(sep, parts)`. */
  function Join(parts: seq<string>, sep: string): string
  {
    if |parts| == 0 then ""
    else if |parts| == 1 then parts[0]
    else parts[0] + sep + Join(parts[1..], sep)
  }

  /**
   * The pieces of `s` between the leftmost non-overlapping occurrences of
   * `sep`, scanning from the left; no occurrence gives `[s]`.
   */
  function Split(s: string, sep: string): (r: seq<string>)
    requires |sep| > 0
    ensures |r| >= 1
    decreases |s|
  {
    if |s| < |sep| then [s]
    else if s[..|sep|] == sep then [[]] + Split(s[|sep|..], sep)
    else
      var t := Split(s[1..], sep);
      [[s[0]] + t[0]] + t[1..]
  }

  /** Drops the empty strings at the end, as `String.split` does. */
  function DropTrailingEmpty(parts: seq<string>): (r: seq<string>)
    ensures |r| <= |parts|
  {
    if |parts| == 0 then []
    else if parts[|parts| - 1] == [] then DropTrailingEmpty(parts[..|parts| - 1])
    else parts
  }

  /** What is dropped: a prefix is kept, ending in a non-empty piece, and only empty pieces go. */
  lemma {:induction false} DropTrailingEmptyFacts(parts: seq<string>)
    ensures DropTrailingEmpty(parts) == parts[..|DropTrailingEmpty(parts)|]
    ensures |DropTrailingEmpty(parts)| > 0 ==> DropTrailingEmpty(parts)[|DropTrailingEmpty(parts)| - 1] != []
    ensures forall i :: |DropTrailingEmpty(parts)| <= i < |parts| ==> parts[i] == []
    decreases |parts|
  {
    if |parts| > 0 && parts[|parts| - 1] == [] {
      var q := parts[..|parts| - 1];
      DropTrailingEmptyFacts(q);
      assert q[..|DropTrailingEmpty(q)|] == parts[..|DropTrailingEmpty(q)|];
    }
  }

  /**
   * `s.split(sep)` for a separator without regular-expression
   * metacharacters: no occurrence gives `[s]` (so `"".split(sep)` is
   * `[""]`); otherwise trailing empty strings are removed.
   */
  function JavaSplit(s: string, sep: string): (r: seq<string>)
    requires |sep| > 0
  {
    var parts := Split(s, sep);
    if |parts| == 1 then parts else DropTrailingEmpty(parts)
  }

  /** Joining the pieces again restores the string. */
  lemma {:induction false} JoinSplit(s: string, sep: string)
    requires |sep| > 0
    ensures Join(Split(s, sep), sep) == s
    decreases |s|
  {
    if |s| < |sep| {
    } else if s[..|sep|] == sep {
      var t := Split(s[|sep|..], sep);
      JoinSplit(s[|sep|..], sep);
      assert Split(s, sep) == [[]] + t;
      assert ([[]] + t)[1..] == t;
    } else {
      var t := Split(s[1..], sep);
      JoinSplit(s[1..], sep);
      var r := [[s[0]] + t[0]] + t[1..];
      assert Split(s, sep) == r;
      if |t| == 1 {
        assert Join(r, sep) == [s[0]] + t[0];
      } else {
        assert r[1..] == t[1..];
        assert Join(t, sep) == t[0] + sep + Join(t[1..], sep);
        assert Join(r, sep) == [s[0]] + t[0] + sep + Join(t[1..], sep);
      }
      assert s == [s[0]] + s[1..];
    }
  }

  /** `c` occurs in `sep` at index `j` and nowhere else. */
  predicate UniqueAt(sep: string, c: char, j: int)
  {
    0 <= j < |sep| && sep[j] == c && forall k :: 0 <= k < |sep| && k != j ==> sep[k] != c
  }

  /** A piece without the marker character is never cut. */
  lemma {:induction false} SplitFree(p: string, sep: string, c: char, j: int)
    requires UniqueAt(sep, c, j)
    requires c !in p
    ensures Split(p, sep) == [p]
    decreases |p|
  {
    if |p| >= |sep| {
      assert p[..|sep|][j] == p[j];
      assert p == [p[0]] + p[1..];
      SplitFree(p[1..], sep, c, j);
    }
  }

  /** The scan takes off exactly the first piece when the marker is absent from it. */
  lemma {:induction false} SplitFirst(p: string, t: string, sep: string, c: char, j: int)
    requires UniqueAt(sep, c, j)
    requires c !in p
    ensures Split(p + sep + t, sep) == [p] + Split(t, sep)
    decreases |p|
  {
    var s := p + sep + t;
    if p == [] {
      assert s == sep + t;
      assert s[..|sep|] == sep;
      assert s[|sep|..] == t;
    } else {
      assert s[..|sep|][j] == s[j];
      assert s[1..] == p[1..] + sep + t;
      SplitFirst(p[1..], t, sep, c, j);
      assert [p[0]] + p[1..] == p;
    }
  }

  /** Splitting undoes joining when no piece holds the separator's marker character. */
  lemma {:induction false} SplitJoin(parts: seq<string>, sep: string, c: char, j: int)
    requires |parts| > 0
    requires UniqueAt(sep, c, j)
    requires forall i :: 0 <= i < |parts| ==> c !in parts[i]
    ensures Split(Join(parts, sep), sep) == parts
  {
    if |parts| == 1 {
      SplitFree(parts[0], sep, c, j);
    } else {
      SplitJoin(parts[1..], sep, c, j);
      SplitFirst(parts[0], Join(parts[1..], sep), sep, c, j);
    }
  }

  /** The same for `String.split`, when the last piece is not empty. */
  lemma JavaSplitJoin(parts: seq<string>, sep: string, c: char, j: int)
    requires |parts| > 0 && parts[|parts| - 1] != []
    requires UniqueAt(sep, c, j)
    requires forall i :: 0 <= i < |parts| ==> c !in parts[i]
    ensures JavaSplit(Join(parts, sep), sep) == parts
  {
    SplitJoin(parts, sep, c, j);
  }

  /** A single-character separator is its own marker. */
  lemma SingleUnique(c: char)
    ensures UniqueAt([c], c, 0)
  {
  }

  /** The characters of a joined string other than the separator's are the pieces' characters. */
  lemma {:induction false} JoinMembers(parts: seq<string>, sep: string, c: char)
    requires c !in sep
    ensures c in Join(parts, sep) <==> exists k :: 0 <= k < |parts| && c in parts[k]
  {
    if |parts| > 1 {
      JoinMembers(parts[1..], sep, c);
      if c in Join(parts[1..], sep) {
        var k :| 0 <= k < |parts[1..]| && c in parts[1..][k];
        assert c in parts[k + 1];
      }
      if exists k :: 0 <= k < |parts| && c in parts[k] {
        var k :| 0 <= k < |parts| && c in parts[k];
        if k > 0 {
          assert c in parts[1..][k - 1];
        }
      }
    }
  }

  /** A joined string is at least as long as its first piece. */
  lemma JoinFirst(parts: seq<string>, sep: string)
    requires |parts| > 0
    ensures |Join(parts, sep)| >= |parts[0]|
  {
  }

  /** No piece of a split by one character holds that character. */
  lemma {:induction false} SplitPiecesFree(s: string, x: char)
    ensures forall k :: 0 <= k < |Split(s, [x])| ==> x !in Split(s, [x])[k]
    decreases |s|
  {
    if |s| >= 1 {
      if s[..1] == [x] {
        SplitPiecesFree(s[1..], x);
        assert Split(s, [x])[1..] == Split(s[1..], [x]);
      } else {
        SplitPiecesFree(s[1..], x);
        var t := Split(s[1..], [x]);
        assert s[0] != x by { assert s[..1][0] == s[0]; }
        assert Split(s, [x])[1..] == t[1..];
        assert Split(s, [x])[0] == [s[0]] + t[0];
      }
    }
  }

  /**
   * With a one-character separator `x`, the characters other than `x`
   * of `s` are the characters of the pieces of `s.split(x)`, none of
   * which holds `x`.
   */
  lemma JavaSplitMembers(s: string, x: char, c: char)
    requires c != x
    ensures forall k :: 0 <= k < |JavaSplit(s, [x])| ==> x !in JavaSplit(s, [x])[k]
    ensures c in s <==> exists k :: 0 <= k < |JavaSplit(s, [x])| && c in JavaSplit(s, [x])[k]
  {
    var parts := Split(s, [x]);
    var r := JavaSplit(s, [x]);
    DropTrailingEmptyFacts(parts);
    SplitPiecesFree(s, x);
    JoinSplit(s, [x]);
    JoinMembers(parts, [x], c);
    assert r == parts[..|r|];
    if c in s {
      var k :| 0 <= k < |parts| && c in parts[k];
      if |parts| != 1 {
        assert parts[k] != [];
        assert k < |r|;
      }
      assert c in r[k];
    }
    if exists k :: 0 <= k < |r| && c in r[k] {
      var k :| 0 <= k < |r| && c in r[k];
      assert c in parts[k];
    }
  }

  /** Upper-casing a joined string upper-cases each piece when the separator has no letters. */
  lemma {:induction false} UpperJoin(parts: seq<string>, sep: string)
    requires UpperStr(sep) == sep
    ensures UpperStr(Join(parts, sep)) == Join(seq(|parts|, i requires 0 <= i < |parts| => UpperStr(parts[i])), sep)
  {
    var ups := seq(|parts|, i requires 0 <= i < |parts| => UpperStr(parts[i]));
    if |parts| > 1 {
      UpperJoin(parts[1..], sep);
      assert ups[1..] == seq(|parts[1..]|, i requires 0 <= i < |parts[1..]| => UpperStr(parts[1..][i]));
      UpperConcat(parts[0] + sep, Join(parts[1..], sep));
      UpperConcat(parts[0], sep);
    }
  }

  /** Upper-casing distributes over concatenation. */
  lemma UpperConcat(a: string, b: string)
    ensures UpperStr(a + b) == UpperStr(a) + UpperStr(b)
  {
  }

  /** Appending the first part, the separator if more follow, then the rest joined, appends the whole join. */
  lemma JoinStep(fin: string, parts: seq<string>, sep: string)
    requires |parts| >= 1
    ensures fin + parts[0] + (if |parts| > 1 then sep else "") + Join(parts[1..], sep) == fin + Join(parts, sep)
  {
    if |parts| == 1 {
      assert fin + parts[0] + "" + "" == fin + parts[0];
    }
  }

  /** Appending a separator and one more part to a join is the join of the longer list, as a loop that writes separators between parts builds it. */
  lemma {:induction false} JoinSnoc(parts: seq<string>, x: string, sep: string)
    requires |parts| > 0
    ensures Join(parts + [x], sep) == Join(parts, sep) + sep + x
    decreases |parts|
  {
    if |parts| > 1 {
      JoinSnoc(parts[1..], x, sep);
      assert (parts + [x])[1..] == parts[1..] + [x];
    }
  }
}

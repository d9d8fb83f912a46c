/** `ArrayUtils`: byte-array concatenation. */
module ArrayUtils {
  import opened Wrappers
  import opened Jvm

  /**
   * `Concat`: a new array of length `a.Length + b.Length` holding `a` then
   * `b`, filled by two copies; neither argument is changed, and `a` and `b`
   * may be the same array. The length is an `int` sum: past
   * `Integer.MAX_VALUE` it wraps to a negative one, and the allocation
   * throws `NegativeArraySizeException` (without a message in JDK 8).
   * A Java array is shorter than 2^31.
   */
  method Concat(a: array<Byte>, b: array<Byte>) returns (r: Result<array<Byte>, Thrown>)
    requires a.Length < 0x8000_0000 && b.Length < 0x8000_0000
    ensures r.Err? <==> a.Length + b.Length >= 0x8000_0000
    ensures r.Err? ==> r.error == Thrown(NegativeArraySize, None)
    ensures r.Ok? ==> fresh(r.value) && r.value.Length == a.Length + b.Length
    ensures r.Ok? ==> r.value[..a.Length] == a[..] && r.value[a.Length..] == b[..]
  {
    var length := ToInt32(a.Length + b.Length);
    if length < 0 {
      return Err(Thrown(NegativeArraySize, None));
    }
    var c := new Byte[length];
    for i := 0 to a.Length
      invariant c[..i] == a[..i]
    {
      c[i] := a[i];
    }
    for j := 0 to b.Length
      invariant c[..a.Length] == a[..]
      invariant c[a.Length..a.Length + j] == b[..j]
    {
      c[a.Length + j] := b[j];
    }
    assert c[a.Length..] == c[a.Length..a.Length + b.Length];
    return Ok(c);
  }

  /** What `Concat` returns is the two arrays' contents one after the other; with an empty `b` it is `a`. */
  lemma ConcatContents(a: seq<Byte>, b: seq<Byte>, c: seq<Byte>)
    requires |c| == |a| + |b| && c[..|a|] == a && c[|a|..] == b
    ensures c == a + b
    ensures b == [] ==> c == a
  {
    assert c == c[..|a|] + c[|a|..];
  }
}

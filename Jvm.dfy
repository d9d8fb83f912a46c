/**
 * The pieces of the Java platform that the Exom code relies on:
 * fixed-width integers and their casts, truncating division, and the
 * exceptions that the code throws or lets escape, with the text that
 * `Throwable.toString` gives them.
 */
module Jvm {
  import opened Wrappers

  /** Java `byte`. */
  type Byte = x: int | -128 <= x < 128
  /** Java `int`. */
  type Int32 = x: int | -0x8000_0000 <= x < 0x8000_0000
  /** Java `long`. */
  type Int64 = x: int | -0x8000_0000_0000_0000 <= x < 0x8000_0000_0000_0000

  /** The narrowing cast `(byte) x`: keeps the low 8 bits, two's complement. */
  function ToByte(x: int): (b: Byte)
    ensures (b - x) % 256 == 0
    ensures -128 <= x < 128 ==> b == x
  {
    var m := x % 256;
    if m < 128 then m else m - 256
  }

  /** The narrowing cast `(int) x` (also what 32-bit arithmetic wraps to). */
  function ToInt32(x: int): (r: Int32)
    ensures (r - x) % 0x1_0000_0000 == 0
    ensures -0x8000_0000 <= x < 0x8000_0000 ==> r == x
  {
    var m := x % 0x1_0000_0000;
    if m < 0x8000_0000 then m else m - 0x1_0000_0000
  }

  /** Java's `a / d` for a positive divisor: rounds toward zero. */
  function Quot(a: int, d: int): (q: int)
    requires d > 0
    ensures a >= 0 ==> q == a / d
    ensures a < 0 ==> -q == (-a) / d
  {
    if a >= 0 then a / d else -((-a) / d)
  }

  /** Java's `a % d` for a positive divisor: takes the sign of `a`. */
  function Rem(a: int, d: int): (r: int)
    requires d > 0
    ensures a == Quot(a, d) * d + r
    ensures a >= 0 ==> 0 <= r < d
    ensures a < 0 ==> -d < r <= 0
  {
    if a >= 0 then a % d else -((-a) % d)
  }

  /** The exception classes that appear in the modelled code; `Other` is one thrown by code outside it. */
  datatype Kind =
    | NullPointer
    | InvalidName
    | FileNotFound
    | StringIndexOutOfBounds
    | ArrayIndexOutOfBounds
    | NoSuchElement
    | NegativeArraySize
    | IllegalArgument
    | ClassNotFound
    | InvalidFlag
    | InvalidCommand
    | Other(className: string)

  /** A thrown exception: its class and its (possibly null) message. */
  datatype Thrown = Thrown(kind: Kind, message: Option<string>)

  function ClassName(k: Kind): string
  {
    match k
    case NullPointer => "java.lang.NullPointerException"
    case InvalidName => "javax.naming.InvalidNameException"
    case FileNotFound => "java.io.FileNotFoundException"
    case StringIndexOutOfBounds => "java.lang.StringIndexOutOfBoundsException"
    case ArrayIndexOutOfBounds => "java.lang.ArrayIndexOutOfBoundsException"
    case NoSuchElement => "java.util.NoSuchElementException"
    case NegativeArraySize => "java.lang.NegativeArraySizeException"
    case IllegalArgument => "java.lang.IllegalArgumentException"
    case ClassNotFound => "java.lang.ClassNotFoundException"
    case InvalidFlag => "Exom.Exceptions.InvalidFlagException"
    case InvalidCommand => "Exom.Exceptions.InvalidCommandException"
    case Other(name) => name
  }

  /** An exception constructed with a message. */
  function Raise(k: Kind, msg: string): Thrown
  {
    Thrown(k, Some(msg))
  }

  /** `Throwable.toString()`: the class name, then ": message" when there is one. */
  function Show(t: Thrown): string
  {
    ClassName(t.kind) + (if t.message.Some? then ": " + t.message.value else "")
  }

  /** The decimal digits of a natural number, as `Long.toString` writes them. */
  function NatString(n: nat): (s: string)
    ensures |s| > 0
    ensures forall i :: 0 <= i < |s| ==> '0' <= s[i] <= '9'
  {
    var d := ['0' + (n % 10) as char];
    if n < 10 then d else NatString(n / 10) + d
  }

  /** `Long.toString(n)`. */
  function DecimalString(n: int): string
  {
    if n < 0 then "-" + NatString(-n) else NatString(n)
  }

  /** The value of a string of decimal digits: the inverse of `NatString`. */
  function DigitsValue(s: string): nat
  {
    if s == [] then 0
    else DigitsValue(s[..|s| - 1]) * 10 + (if '0' <= s[|s| - 1] <= '9' then (s[|s| - 1] - '0') as nat else 0)
  }

  lemma {:induction false} NatStringValue(n: nat)
    ensures DigitsValue(NatString(n)) == n
  {
    var s := NatString(n);
    if n >= 10 {
      NatStringValue(n / 10);
      assert s[..|s| - 1] == NatString(n / 10);
    }
  }

  /** The JDK 8 message of `StringIndexOutOfBoundsException(int index)`. */
  function IndexMessage(i: int): string
  {
    "String index out of range: " + DecimalString(i)
  }

  /** `String.charAt(i)` / `StringIndexOutOfBoundsException` on a bad index. */
  function CharAt(s: string, i: int): (r: Result<char, Thrown>)
    ensures r.Ok? <==> 0 <= i < |s|
    ensures r.Ok? ==> r.value == s[i]
  {
    if 0 <= i < |s| then Ok(s[i]) else Err(Raise(StringIndexOutOfBounds, IndexMessage(i)))
  }

  /** `n` zero bytes, as a new Java array holds. */
  function Zeros(n: nat): (z: seq<Byte>)
    ensures |z| == n && forall i :: 0 <= i < n ==> z[i] == 0
  {
    seq(n, i => 0)
  }

  /**
   * `Arrays.copyOfRange(data, from, to)` as JDK 8 implements it: the length
   * is `to - from` in 32-bit arithmetic, a negative length is an
   * `IllegalArgumentException` naming both bounds, a start outside the data
   * makes `System.arraycopy` throw, and a range that runs past the end is
   * filled up with zeros. The new array is taken to fit in memory.
   */
  function CopyOfRange(data: seq<Byte>, from: Int32, to: Int32): (r: Result<seq<Byte>, Thrown>)
    ensures r.Ok? <==> 0 <= from <= |data| && ToInt32(to - from) >= 0
    ensures r.Ok? ==> |r.value| == ToInt32(to - from)
    ensures r.Ok? ==> forall i :: 0 <= i < |r.value| ==> r.value[i] == if from + i < |data| then data[from + i] else 0
    ensures r.Ok? && from <= to <= |data| ==> r.value == data[from..to]
    ensures 0 <= from <= to ==> ToInt32(to - from) == to - from
  {
    var length := ToInt32(to - from);
    if length < 0 then Err(Raise(IllegalArgument, DecimalString(from) + " > " + DecimalString(to)))
    else if from < 0 || from > |data| then Err(Thrown(ArrayIndexOutOfBounds, None))
    else if from + length <= |data| then Ok(data[from..from + length])
    else Ok(data[from..] + Zeros(from + length - |data|))
  }

  /** `(u + n) - u` in 32-bit arithmetic gives `n` back, whether or not `u + n` wrapped. */
  lemma WrapBack(u: Int32, n: Int32)
    ensures ToInt32(ToInt32(u + n) - u) == n
  {
    var w := ToInt32(u + n);
    if u + n >= 0x8000_0000 {
      assert w == u + n - 0x1_0000_0000;
    } else if u + n < -0x8000_0000 {
      assert w == u + n + 0x1_0000_0000;
    }
  }

  /** `String.substring(b, e)`, with the checks in the order JDK 8 makes them. */
  function Substring(s: string, b: int, e: int): (r: Result<string, Thrown>)
    ensures r.Ok? <==> 0 <= b <= e <= |s|
    ensures r.Ok? ==> r.value == s[b..e]
  {
    if b < 0 then Err(Raise(StringIndexOutOfBounds, IndexMessage(b)))
    else if e > |s| then Err(Raise(StringIndexOutOfBounds, IndexMessage(e)))
    else if e - b < 0 then Err(Raise(StringIndexOutOfBounds, IndexMessage(e - b)))
    else Ok(s[b..e])
  }

  /** Multiplication of non-negative numbers is monotone. */
  lemma MulMono(a: int, b: int, c: int, d: int)
    requires 0 <= a <= b && 0 <= c <= d
    ensures a * c <= b * d
  {
    assert a * c <= b * c;
    assert b * c <= b * d;
  }

  /** Euclidean division is unique: a quotient and remainder that rebuild `y` are `y / a` and `y % a`. */
  lemma DivUnique(y: int, a: int, q: int, r: int)
    requires a > 0 && y == a * q + r && 0 <= r < a
    ensures y / a == q && y % a == r
  {
    var q', r' := y / a, y % a;
    assert y == a * q' + r' && 0 <= r' < a;
    if q > q' {
      var k := q - q';
      assert a * q == a * q' + a * k;
      MulMono(a, a, 1, k);
    } else if q < q' {
      var k := q' - q;
      assert a * q' == a * q + a * k;
      MulMono(a, a, 1, k);
    }
  }
}

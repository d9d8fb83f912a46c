/**
 * `ByteUtils`: a signed byte read as unsigned, a 32-bit `int` written as
 * and read from four big-endian bytes, and bytes written as upper-case
 * hexadecimal.
 */
module ByteUtils {
  import opened Wrappers
  import opened Jvm

  /** `data & 0xFF`: the unsigned value of a signed byte. */
  function ToUnsigned(b: Byte): (u: int)
    ensures 0 <= u < 256
    ensures (u - b) % 256 == 0
    ensures ToByte(u) == b
  {
    b % 256
  }

  /** The byte whose unsigned value is `u`. */
  lemma UnsignedOfByte(u: int)
    requires 0 <= u < 256
    ensures ToUnsigned(ToByte(u)) == u
  {
  }

  /** 256 to the power `n`. */
  function Pow(n: nat): (p: nat)
    ensures p >= 1
  {
    if n == 0 then 1 else 256 * Pow(n - 1)
  }

  /** The bytes as an unsigned big-endian number, the first byte being the most significant. */
  function Value(bs: seq<Byte>): nat
  {
    if bs == [] then 0 else Value(bs[..|bs| - 1]) * 256 + ToUnsigned(bs[|bs| - 1])
  }

  lemma {:induction false} ValueBound(bs: seq<Byte>)
    ensures Value(bs) < Pow(|bs|)
  {
    if bs != [] {
      ValueBound(bs[..|bs| - 1]);
    }
  }

  /** Reading the first byte separately: it weighs `Pow` of the number of bytes after it. */
  lemma {:induction false} ValuePrepend(b: Byte, bs: seq<Byte>)
    ensures Value([b] + bs) == ToUnsigned(b) * Pow(|bs|) + Value(bs)
  {
    if bs != [] {
      var n := |bs|;
      var front := bs[..n - 1];
      assert ([b] + bs)[..n] == [b] + front;
      ValuePrepend(b, front);
      var u, w := ToUnsigned(b), ToUnsigned(bs[n - 1]);
      assert Value([b] + bs) == Value([b] + front) * 256 + w;
      assert Value(bs) == Value(front) * 256 + w;
      Regroup(u, Pow(n - 1), Value(front), w);
    }
  }

  lemma Regroup(u: int, q: int, f: int, w: int)
    ensures (u * q + f) * 256 + w == u * (256 * q) + (f * 256 + w)
  {
    assert (u * q) * 256 == u * (256 * q);
  }

  /** Byte sequences of one length with one value are equal. */
  lemma {:induction false} ValueInjective(a: seq<Byte>, b: seq<Byte>)
    requires |a| == |b| && Value(a) == Value(b)
    ensures a == b
  {
    if a != [] {
      var n := |a| - 1;
      assert ToUnsigned(a[n]) == Value(a) % 256 && ToUnsigned(b[n]) == Value(b) % 256;
      assert Value(a[..n]) == Value(a) / 256 && Value(b[..n]) == Value(b) / 256;
      ValueInjective(a[..n], b[..n]);
      assert a == a[..n] + [a[n]] && b == b[..n] + [b[n]];
    }
  }

  /** The `k` low bytes of `n` in big-endian order, the last byte being `n` modulo 256. */
  function BigEndian(n: int, k: nat): (bs: seq<Byte>)
    ensures |bs| == k
    decreases k
  {
    if k == 0 then [] else BigEndian(n / 256, k - 1) + [ToByte(n % 256)]
  }

  /** Read back, `BigEndian(n, k)` is `n` modulo 256^k. */
  lemma {:induction false} BigEndianValue(n: int, k: nat)
    ensures Value(BigEndian(n, k)) == n % Pow(k)
    decreases k
  {
    if k > 0 {
      var bs := BigEndian(n, k);
      assert bs[..k - 1] == BigEndian(n / 256, k - 1);
      BigEndianValue(n / 256, k - 1);
      UnsignedOfByte(n % 256);
      ModSplit(n, Pow(k - 1));
    }
  }

  /** `n mod 256p` from `n / 256 mod p` and `n mod 256`. */
  lemma ModSplit(n: int, p: int)
    requires p > 0
    ensures ((n / 256) % p) * 256 + n % 256 == n % (256 * p)
  {
    var q, r := n / 256, n % 256;
    var a, b := q / p, q % p;
    assert n == 256 * q + r;
    assert q == p * a + b;
    assert n == (256 * p) * a + (256 * b + r) by {
      assert 256 * q == 256 * (p * a) + 256 * b;
      assert 256 * (p * a) == (256 * p) * a;
    }
    assert 0 <= 256 * b + r < 256 * p;
    DivUnique(n, 256 * p, a, 256 * b + r);
  }

  /** The four bytes of a value modulo 2^32 are its big-endian bytes. */
  lemma BigEndianUnique(n: int, bs: seq<Byte>)
    requires |bs| == 4 && Value(bs) == n % 0x1_0000_0000
    ensures bs == BigEndian(n, 4)
  {
    BigEndianValue(n, 4);
    assert Pow(4) == 0x1_0000_0000;
    ValueInjective(bs, BigEndian(n, 4));
  }

  /** `ToInt` of the four bytes that `IntToBytes` writes for a non-negative `int` gives it back. */
  lemma BigEndianRead(v: int)
    requires 0 <= v < 0x8000_0000
    ensures ToInt32(Value(BigEndian(v, 4)[..4])) == v
  {
    var bs := BigEndian(v, 4);
    assert bs[..4] == bs;
    BigEndianValue(v, 4);
    assert Pow(4) == 0x1_0000_0000;
    DivUnique(v, 0x1_0000_0000, 0, v);
    assert Value(bs) == v;
  }

  /** One step of `data >>= 8` with the low byte set aside, weighed at `p`. */
  lemma ShiftOut(d: int, p: int, v: int)
    ensures d * p + v == (d / 256) * (256 * p) + ((d % 256) * p + v)
  {
    calc {
      d * p + v;
      ((d / 256) * 256 + d % 256) * p + v;
      (d / 256) * 256 * p + (d % 256) * p + v;
      { assert (d / 256) * 256 * p == (d / 256) * (256 * p); }
      (d / 256) * (256 * p) + ((d % 256) * p + v);
    }
  }

  /**
   * `IntToBytes`: four bytes, filled from the last while `data` is shifted
   * right by 8. Read back big-endian they are `data` modulo 2^32, that is
   * its two's complement bit pattern.
   */
  method IntToBytes(data: Int32) returns (result: array<Byte>)
    ensures fresh(result) && result.Length == 4
    ensures Value(result[..]) == data % 0x1_0000_0000
    ensures result[..] == BigEndian(data, 4)
  {
    result := new Byte[4];
    var d: int := data;
    var i := 3;
    while i >= 0
      invariant -1 <= i <= 3
      invariant data == d * Pow(3 - i) + Value(result[i + 1..])
    {
      var rest := result[i + 1..];
      UnsignedOfByte(d % 256);
      ValuePrepend(ToByte(d % 256), rest);
      ShiftOut(d, Pow(3 - i), Value(rest));
      result[i] := ToByte(d % 256);
      assert result[i..] == [result[i]] + rest;
      d := d / 256;
      i := i - 1;
    }
    assert i == -1 && result[i + 1..] == result[..];
    var p, v := Pow(3 - i), Value(result[..]);
    assert data == d * p + v;
    ValueBound(result[..]);
    Residue(data, d, p, v);
    BigEndianUnique(data, result[..]);
  }

  lemma Residue(x: int, q: int, p: int, v: int)
    requires p == Pow(4) && x == q * p + v && 0 <= v < p
    ensures v == x % 0x1_0000_0000
  {
    assert p == 0x1_0000_0000;
  }

  /** The last step of `ToInt`'s loop, `result <<= 8; result |= u`, on a result that has not yet wrapped. */
  lemma ShiftIn(v: int, u: int)
    requires 0 <= v < 0x100_0000 && 0 <= u < 256
    ensures ToInt32(ToInt32(v) * 256) + u == ToInt32(v * 256 + u)
  {
  }

  /**
   * `ToInt`: the first four bytes read big-endian as a 32-bit `int`; any
   * later bytes are ignored, and fewer than four make `data[i]` throw.
   */
  method ToInt(data: array<Byte>) returns (r: Result<Int32, Thrown>)
    ensures data.Length >= 4 ==> r == Ok(ToInt32(Value(data[..4])))
    ensures data.Length < 4 ==> r == Err(Raise(ArrayIndexOutOfBounds, DecimalString(data.Length)))
  {
    var result: Int32 := 0;
    for i := 0 to 4
      invariant i <= data.Length
      invariant result == ToInt32(Value(data[..i]))
    {
      if i >= data.Length {
        return Err(Raise(ArrayIndexOutOfBounds, DecimalString(i)));
      }
      assert data[..i + 1][..i] == data[..i];
      ValueBound(data[..i]);
      assert Pow(i) <= 0x100_0000 by {
        assert Pow(1) == 256 && Pow(2) == 0x1_0000 && Pow(3) == 0x100_0000;
      }
      ShiftIn(Value(data[..i]), ToUnsigned(data[i]));
      // the shift leaves the low byte zero, so `|=` adds it
      result := ToInt32(result * 256) + ToUnsigned(data[i]);
    }
    return Ok(result);
  }

  /** `ToInt(IntToBytes(x)) == x`: the four bytes `IntToBytes` promises read back as `x`. */
  lemma IntBytesRoundTrip(x: Int32, bs: seq<Byte>)
    requires |bs| == 4 && Value(bs) == x % 0x1_0000_0000
    ensures ToInt32(Value(bs)) == x
  {
  }

  /** `IntToBytes(ToInt(data))` is the first four bytes of `data`. */
  lemma BytesIntRoundTrip(data: seq<Byte>, bs: seq<Byte>)
    requires |data| >= 4 && |bs| == 4
    requires Value(bs) == ToInt32(Value(data[..4])) % 0x1_0000_0000
    ensures bs == data[..4]
  {
    var v := Value(data[..4]);
    ValueBound(data[..4]);
    assert Pow(4) == 0x1_0000_0000;
    if v < 0x8000_0000 {
      DivUnique(ToInt32(v), 0x1_0000_0000, 0, v);
    } else {
      DivUnique(ToInt32(v), 0x1_0000_0000, -1, v);
    }
    ValueInjective(bs, data[..4]);
  }

  /** The digit `%X` writes for a value below 16. */
  function HexDigit(n: int): (c: char)
    requires 0 <= n < 16
    ensures HexValue(c) == n
  {
    if n < 10 then '0' + n as char else 'A' + (n - 10) as char
  }

  /** The value of a hexadecimal digit in either case; 0 for any other character. */
  function HexValue(c: char): (n: int)
    ensures 0 <= n < 16
  {
    if '0' <= c <= '9' then (c - '0') as int
    else if 'A' <= c <= 'F' then (c - 'A') as int + 10
    else if 'a' <= c <= 'f' then (c - 'a') as int + 10
    else 0
  }

  /** `String.format("%02X", b)`: a negative byte is first made unsigned, then written as two digits. */
  function HexPair(b: Byte): (s: string)
    ensures |s| == 2
  {
    var u := ToUnsigned(b);
    [HexDigit(u / 16), HexDigit(u % 16)]
  }

  /** The hexadecimal text of a byte sequence, two digits per byte. */
  function Hex(bs: seq<Byte>): (s: string)
    ensures |s| == 2 * |bs|
  {
    if bs == [] then [] else HexPair(bs[0]) + Hex(bs[1..])
  }

  lemma {:induction false} HexAppend(bs: seq<Byte>, b: Byte)
    ensures Hex(bs + [b]) == Hex(bs) + HexPair(b)
  {
    if bs != [] {
      assert (bs + [b])[1..] == bs[1..] + [b];
      HexAppend(bs[1..], b);
    }
  }

  /** Byte `i` is written at positions `2i` and `2i + 1`. */
  lemma {:induction false} HexLayout(bs: seq<Byte>, i: nat)
    requires i < |bs|
    ensures Hex(bs)[2 * i..2 * i + 2] == HexPair(bs[i])
  {
    if i > 0 {
      HexLayout(bs[1..], i - 1);
    }
  }

  /** Reading hexadecimal text back, two digits per byte. */
  function Unhex(s: string): seq<Byte>
  {
    if |s| < 2 then [] else [ToByte(HexValue(s[0]) * 16 + HexValue(s[1]))] + Unhex(s[2..])
  }

  lemma {:induction false} UnhexHex(bs: seq<Byte>)
    ensures Unhex(Hex(bs)) == bs
  {
    if bs != [] {
      var h := Hex(bs);
      assert h[2..] == Hex(bs[1..]);
      UnhexHex(bs[1..]);
      var u := ToUnsigned(bs[0]);
      assert HexValue(h[0]) * 16 + HexValue(h[1]) == u;
    }
  }

  /** `ToHex`: each byte appended as two upper-case hexadecimal digits. */
  method ToHex(data: array<Byte>) returns (s: string)
    ensures s == Hex(data[..])
  {
    s := "";
    for i := 0 to data.Length
      invariant s == Hex(data[..i])
    {
      HexAppend(data[..i], data[i]);
      assert data[..i + 1] == data[..i] + [data[i]];
      s := s + HexPair(data[i]);
    }
    assert data[..data.Length] == data[..];
  }
}

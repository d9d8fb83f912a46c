/**
 * `EXDA`, the Exom dictionary algorithm: every byte is replaced by the
 * dictionary entry at its unsigned value, in blocks of 8192 bytes; the
 * reversed dictionary undoes it, and a dictionary is a shuffle of the 256
 * byte values.
 */
module Exda {
  import opened Wrappers
  import opened Jvm
  import ByteUtils

  /** The size of the buffer `Encrypt` reads into and of every block it writes. */
  const BufferSize := 8192

  function Min(a: int, b: int): int
  {
    if a < b then a else b
  }

  /** Every byte of `data[from..to]` has an entry in the dictionary. */
  predicate InDict(dict: seq<Byte>, data: seq<Byte>, from: int, to: int)
  {
    forall i :: from <= i < to && 0 <= i < |data| ==> ByteUtils.ToUnsigned(data[i]) < |dict|
  }

  /** `dictionary[ToUnsigned(b)]`, where that entry exists. */
  function Entry(dict: seq<Byte>, b: Byte): Byte
  {
    var i := ByteUtils.ToUnsigned(b);
    if i < |dict| then dict[i] else 0
  }

  /** Each byte replaced by the dictionary entry at its unsigned value. */
  function Map(data: seq<Byte>, dict: seq<Byte>): (r: seq<Byte>)
    ensures |r| == |data|
  {
    if data == [] then [] else [Entry(dict, data[0])] + Map(data[1..], dict)
  }

  /** Byte `i` of the replacement is the entry of byte `i`. */
  lemma {:induction false} MapAt(data: seq<Byte>, dict: seq<Byte>, i: nat)
    requires i < |data|
    ensures Map(data, dict)[i] == Entry(dict, data[i])
  {
    if i > 0 {
      MapAt(data[1..], dict, i - 1);
    }
  }

  /** Replacing two parts one after the other is replacing their concatenation. */
  lemma {:induction false} MapConcat(a: seq<Byte>, b: seq<Byte>, dict: seq<Byte>)
    ensures Map(a + b, dict) == Map(a, dict) + Map(b, dict)
  {
    if a != [] {
      assert (a + b)[1..] == a[1..] + b;
      MapConcat(a[1..], b, dict);
    } else {
      assert a + b == b;
    }
  }

  /** `n` copies of `b`. */
  function Repeat(b: Byte, n: nat): seq<Byte>
  {
    seq(n, _ => b)
  }

  // ---------------------------------------------------------------------
  // Replace
  // ---------------------------------------------------------------------

  /**
   * The `Replace` loop from index `u`, with `fin` built so far:
   * `fin[u] = dictionary[ToUnsigned(data[u])]` while `u < count`. Reading
   * `data[u]` or the dictionary entry out of bounds throws, with the index
   * as the message.
   */
  function ReplaceFrom(data: seq<Byte>, u: int, count: int, dict: seq<Byte>, fin: seq<Byte>): Result<seq<Byte>, Thrown>
    requires |fin| == |data|
    decreases count - u
  {
    if u >= count then Ok(fin)
    else if u < 0 || u >= |data| then Err(Raise(ArrayIndexOutOfBounds, DecimalString(u)))
    else
      var i := ByteUtils.ToUnsigned(data[u]);
      if i >= |dict| then Err(Raise(ArrayIndexOutOfBounds, DecimalString(i)))
      else ReplaceFrom(data, u + 1, count, dict, fin[u := dict[i]])
  }

  /** What `Replace(data, offset, count, dictionary)` returns or throws: the new array starts as zeros. */
  function Replaced(data: seq<Byte>, offset: int, count: int, dict: seq<Byte>): Result<seq<Byte>, Thrown>
  {
    ReplaceFrom(data, offset, count, dict, Zeros(|data|))
  }

  /** `Replace`: a new array of `data`'s length, holding the replaced bytes at `offset..count-1` and zeros elsewhere. */
  method Replace(data: array<Byte>, offset: Int32, count: Int32, dict: array<Byte>) returns (r: Result<array<Byte>, Thrown>)
    ensures r.Ok? ==> fresh(r.value) && Replaced(data[..], offset, count, dict[..]) == Ok(r.value[..])
    ensures r.Err? ==> Replaced(data[..], offset, count, dict[..]) == Err(r.error)
  {
    var fin := new Byte[data.Length](_ => 0);
    assert fin[..] == Zeros(data.Length);
    var u: int := offset;
    while u < count
      invariant fresh(fin) && fin.Length == data.Length
      invariant ReplaceFrom(data[..], u, count, dict[..], fin[..]) == Replaced(data[..], offset, count, dict[..])
      decreases count - u
    {
      if u < 0 || u >= data.Length {
        return Err(Raise(ArrayIndexOutOfBounds, DecimalString(u)));
      }
      var i := ByteUtils.ToUnsigned(data[u]);
      if i >= dict.Length {
        return Err(Raise(ArrayIndexOutOfBounds, DecimalString(i)));
      }
      ReplaceFromStep(data[..], u, count, dict[..], fin[..]);
      fin[u] := dict[i];
      u := u + 1;
    }
    return Ok(fin);
  }

  /** The loop succeeds exactly when every index it reaches is inside the data and has a dictionary entry, and then sets just those positions. */
  lemma {:induction false} ReplaceFromMeaning(data: seq<Byte>, u: int, count: int, dict: seq<Byte>, fin: seq<Byte>)
    requires |fin| == |data|
    ensures ReplaceFrom(data, u, count, dict, fin).Ok? <==> u >= count || (0 <= u && count <= |data| && InDict(dict, data, u, count))
    ensures ReplaceFrom(data, u, count, dict, fin).Ok? ==>
      var v := ReplaceFrom(data, u, count, dict, fin).value;
      |v| == |data| && forall i :: 0 <= i < |data| ==> v[i] == if u <= i < count then dict[ByteUtils.ToUnsigned(data[i])] else fin[i]
    decreases count - u
  {
    if u < count && 0 <= u < |data| {
      var i := ByteUtils.ToUnsigned(data[u]);
      if i < |dict| {
        ReplaceFromMeaning(data, u + 1, count, dict, fin[u := dict[i]]);
      }
    }
  }

  /**
   * `Replace` succeeds exactly when `offset..count-1` lies inside the data
   * and each of those bytes has a dictionary entry (or the range is empty);
   * the result has the data's length, the replaced bytes in the range and
   * zeros outside it.
   */
  lemma ReplacedMeaning(data: seq<Byte>, offset: int, count: int, dict: seq<Byte>)
    ensures Replaced(data, offset, count, dict).Ok? <==> offset >= count || (0 <= offset && count <= |data| && InDict(dict, data, offset, count))
    ensures Replaced(data, offset, count, dict).Ok? ==>
      var v := Replaced(data, offset, count, dict).value;
      |v| == |data| && forall i :: 0 <= i < |data| ==> v[i] == if offset <= i < count then dict[ByteUtils.ToUnsigned(data[i])] else 0
  {
    ReplaceFromMeaning(data, offset, count, dict, Zeros(|data|));
  }

  /** The loop throws at the first index `i` that is past the data or whose byte has no dictionary entry. */
  lemma {:induction false} FirstFailure(data: seq<Byte>, u: int, count: int, dict: seq<Byte>, fin: seq<Byte>, i: int)
    requires |fin| == |data| && 0 <= u <= i < count && i <= |data|
    requires InDict(dict, data, u, i)
    requires i == |data| || ByteUtils.ToUnsigned(data[i]) >= |dict|
    ensures ReplaceFrom(data, u, count, dict, fin) == Err(Raise(ArrayIndexOutOfBounds, DecimalString(if i == |data| then i else ByteUtils.ToUnsigned(data[i]))))
    decreases i - u
  {
    if u < i {
      var j := ByteUtils.ToUnsigned(data[u]);
      assert j < |dict|;
      ReplaceFromStep(data, u, count, dict, fin);
      FirstFailure(data, u + 1, count, dict, fin[u := dict[j]], i);
    }
  }

  /** One turn of the `Replace` loop on a byte that has an entry. */
  lemma ReplaceFromStep(data: seq<Byte>, u: int, count: int, dict: seq<Byte>, fin: seq<Byte>)
    requires |fin| == |data| && 0 <= u < count && u < |data| && ByteUtils.ToUnsigned(data[u]) < |dict|
    ensures ReplaceFrom(data, u, count, dict, fin) == ReplaceFrom(data, u + 1, count, dict, fin[u := dict[ByteUtils.ToUnsigned(data[u])]])
  {
  }

  /**
   * The exceptions of `Replace`: a negative offset is reported first; then
   * the first index whose byte has no dictionary entry, or the data's
   * length when `count` runs past it.
   */
  lemma ReplaceErrors(data: seq<Byte>, offset: int, count: int, dict: seq<Byte>, i: int)
    ensures offset < 0 && offset < count ==> Replaced(data, offset, count, dict) == Err(Raise(ArrayIndexOutOfBounds, DecimalString(offset)))
    ensures 0 <= offset <= i < count && i <= |data| && InDict(dict, data, offset, i) && (i == |data| || ByteUtils.ToUnsigned(data[i]) >= |dict|) ==>
      Replaced(data, offset, count, dict) == Err(Raise(ArrayIndexOutOfBounds, DecimalString(if i == |data| then i else ByteUtils.ToUnsigned(data[i]))))
  {
    if 0 <= offset <= i < count && i <= |data| && InDict(dict, data, offset, i) && (i == |data| || ByteUtils.ToUnsigned(data[i]) >= |dict|) {
      FirstFailure(data, offset, count, dict, Zeros(|data|), i);
    }
  }

  /** Two arrays of one length that agree below `count` give the same result. */
  lemma {:induction false} ReplaceFromPrefix(a: seq<Byte>, b: seq<Byte>, u: int, count: int, dict: seq<Byte>, fin: seq<Byte>)
    requires |a| == |b| == |fin| && 0 <= count <= |a| && a[..count] == b[..count]
    ensures ReplaceFrom(a, u, count, dict, fin) == ReplaceFrom(b, u, count, dict, fin)
    decreases count - u
  {
    if 0 <= u < count {
      assert a[u] == a[..count][u] == b[..count][u] == b[u];
      var i := ByteUtils.ToUnsigned(a[u]);
      if i < |dict| {
        ReplaceFromPrefix(a, b, u + 1, count, dict, fin[u := dict[i]]);
      }
    }
  }

  // ---------------------------------------------------------------------
  // Encrypt and Decrypt
  // ---------------------------------------------------------------------

  /** What `out.write(Replace(buffer, 0, count, dictionary))` writes for a chunk of `count` bytes read into the buffer. */
  function Block(chunk: seq<Byte>, dict: seq<Byte>): Result<seq<Byte>, Thrown>
    requires |chunk| <= BufferSize
  {
    Replaced(chunk + Zeros(BufferSize - |chunk|), 0, |chunk|, dict)
  }

  /** The `Encrypt` loop on the bytes still to be read, with `out` written so far: one block per read of at most 8192 bytes. */
  function EncryptRest(rest: seq<Byte>, dict: seq<Byte>, out: seq<Byte>): Result<seq<Byte>, Thrown>
    decreases |rest|
  {
    if rest == [] then Ok(out)
    else
      var c := Min(BufferSize, |rest|);
      match Block(rest[..c], dict)
      case Err(e) => Err(e)
      case Ok(b) => EncryptRest(rest[c..], dict, out + b)
  }

  /** What `Encrypt(data, dictionary)` returns or throws. */
  function Encrypted(data: seq<Byte>, dict: seq<Byte>): Result<seq<Byte>, Thrown>
  {
    EncryptRest(data, dict, [])
  }

  /**
   * `in.read(buffer)` on a `ByteArrayInputStream` at position `pos`: -1 at
   * the end; otherwise up to the buffer's length of the next bytes, copied
   * to its start, the rest of the buffer kept.
   */
  method Read(data: array<Byte>, pos: nat, buffer: array<Byte>) returns (count: int, pos': nat)
    requires pos <= data.Length && buffer.Length == BufferSize && buffer != data
    modifies buffer
    ensures pos == data.Length ==> count == -1 && pos' == pos && buffer[..] == old(buffer[..])
    ensures pos < data.Length ==> count == Min(BufferSize, data.Length - pos) && pos' == pos + count
    ensures pos < data.Length ==> buffer[..count] == data[pos..pos'] && buffer[count..] == old(buffer[count..])
  {
    if pos == data.Length {
      return -1, pos;
    }
    count := Min(BufferSize, data.Length - pos);
    for k := 0 to count
      invariant buffer[..k] == data[pos..pos + k]
      invariant buffer[count..] == old(buffer[count..])
    {
      buffer[k] := data[pos + k];
    }
    pos' := pos + count;
  }

  /** `Encrypt`: blocks read into a reused 8192-byte buffer, each written out as a whole replaced buffer. */
  method Encrypt(data: array<Byte>, dict: array<Byte>) returns (r: Result<seq<Byte>, Thrown>)
    ensures r == Encrypted(data[..], dict[..])
  {
    ghost var d, k := data[..], dict[..];
    var buffer := new Byte[BufferSize](_ => 0);
    var out: seq<Byte> := [];
    var pos: nat := 0;
    while true
      invariant pos <= data.Length && buffer.Length == BufferSize
      invariant EncryptRest(d[pos..], k, out) == Encrypted(d, k)
      decreases data.Length - pos
    {
      var count, next := Read(data, pos, buffer);
      if count == -1 {
        break;
      }
      BufferBlock(buffer[..], d[pos..next], k);
      assert d[pos..][..count] == d[pos..next] && d[pos..][count..] == d[next..];
      EncryptRestStep(d[pos..], k, out);
      pos := next;
      var block := Replace(buffer, 0, count, dict);
      if block.Err? {
        return Err(block.error);
      }
      out := out + block.value[..];
    }
    return Ok(out);
  }

  /** A buffer whose first bytes are a chunk gives the chunk's block, whatever the stale bytes after it. */
  lemma BufferBlock(buffer: seq<Byte>, chunk: seq<Byte>, dict: seq<Byte>)
    requires |buffer| == BufferSize && |chunk| <= BufferSize && buffer[..|chunk|] == chunk
    ensures Replaced(buffer, 0, |chunk|, dict) == Block(chunk, dict)
  {
    var padded := chunk + Zeros(BufferSize - |chunk|);
    assert padded[..|chunk|] == chunk;
    ReplaceFromPrefix(buffer, padded, 0, |chunk|, dict, Zeros(BufferSize));
  }

  /** One turn of the `Encrypt` loop. */
  lemma EncryptRestStep(rest: seq<Byte>, dict: seq<Byte>, out: seq<Byte>)
    requires rest != []
    ensures var c := Min(BufferSize, |rest|);
      var b := Block(rest[..c], dict);
      EncryptRest(rest, dict, out) == if b.Err? then Err(b.error) else EncryptRest(rest[c..], dict, out + b.value)
  {
  }

  /** The zeros that fill the last block of `n` bytes up to 8192. */
  function Padding(n: nat): (p: nat)
    ensures p < BufferSize
  {
    if n == 0 then 0 else if n <= BufferSize then BufferSize - n else Padding(n - BufferSize)
  }

  /** With its padding, the data fills a whole number of blocks. */
  lemma {:induction false} WholeBlocksOf(n: nat) returns (q: nat)
    ensures n + Padding(n) == BufferSize * q
  {
    if n == 0 {
      q := 0;
    } else if n <= BufferSize {
      q := 1;
    } else {
      var q' := WholeBlocksOf(n - BufferSize);
      q := q' + 1;
    }
  }

  /** A whole number of blocks needs no padding. */
  lemma {:induction false} PaddingWhole(q: nat)
    ensures Padding(BufferSize * q) == 0
  {
    if q > 1 {
      PaddingWhole(q - 1);
    }
  }

  /** The block of a chunk whose bytes all have entries: the replaced chunk, then zeros to 8192 bytes. */
  lemma BlockMeaning(chunk: seq<Byte>, dict: seq<Byte>)
    requires |chunk| <= BufferSize
    ensures Block(chunk, dict).Ok? <==> InDict(dict, chunk, 0, |chunk|)
    ensures Block(chunk, dict).Ok? ==> Block(chunk, dict).value == Map(chunk, dict) + Zeros(BufferSize - |chunk|)
  {
    var data := chunk + Zeros(BufferSize - |chunk|);
    ReplacedMeaning(data, 0, |chunk|, dict);
    assert InDict(dict, data, 0, |chunk|) <==> InDict(dict, chunk, 0, |chunk|) by {
      assert forall i :: 0 <= i < |chunk| ==> data[i] == chunk[i];
    }
    if Block(chunk, dict).Ok? {
      var v := Block(chunk, dict).value;
      var w := Map(chunk, dict) + Zeros(BufferSize - |chunk|);
      forall i | 0 <= i < BufferSize
        ensures v[i] == w[i]
      {
        if i < |chunk| {
          assert data[i] == chunk[i];
          MapAt(chunk, dict, i);
        }
      }
    }
  }

  /** The loop succeeds exactly when the remaining bytes have entries. */
  lemma {:induction false} EncryptRestOk(rest: seq<Byte>, dict: seq<Byte>, out: seq<Byte>)
    ensures EncryptRest(rest, dict, out).Ok? <==> InDict(dict, rest, 0, |rest|)
    decreases |rest|
  {
    if rest != [] {
      var c := Min(BufferSize, |rest|);
      var chunk, after := rest[..c], rest[c..];
      SplitInDict(rest, chunk, after, dict);
      BlockMeaning(chunk, dict);
      EncryptRestStep(rest, dict, out);
      if InDict(dict, chunk, 0, c) {
        EncryptRestOk(after, dict, out + Block(chunk, dict).value);
      }
    }
  }

  /** When it succeeds, the loop appends the replacement of the remaining bytes and the padding of the last block. */
  lemma {:induction false} EncryptRestValue(rest: seq<Byte>, dict: seq<Byte>, out: seq<Byte>)
    requires InDict(dict, rest, 0, |rest|)
    ensures EncryptRest(rest, dict, out) == Ok(out + Map(rest, dict) + Zeros(Padding(|rest|)))
    decreases |rest|
  {
    if rest == [] {
      assert Map(rest, dict) == [] && Zeros(0) == [];
      assert out + Map(rest, dict) + Zeros(Padding(0)) == out;
    } else {
      var c := Min(BufferSize, |rest|);
      var chunk, after := rest[..c], rest[c..];
      SplitInDict(rest, chunk, after, dict);
      var b := EncryptRestChunk(rest, dict, out);
      EncryptRestValue(after, dict, out + b);
      MapConcat(chunk, after, dict);
      Assemble(out, Map(chunk, dict), Map(after, dict), |after|);
    }
  }

  /** A turn of the loop on a chunk whose bytes all have entries writes its replacement and the zeros after it. */
  lemma EncryptRestChunk(rest: seq<Byte>, dict: seq<Byte>, out: seq<Byte>) returns (b: seq<Byte>)
    requires rest != []
    requires InDict(dict, rest[..Min(BufferSize, |rest|)], 0, Min(BufferSize, |rest|))
    ensures var c := Min(BufferSize, |rest|);
      b == Map(rest[..c], dict) + Zeros(BufferSize - c)
      && EncryptRest(rest, dict, out) == EncryptRest(rest[c..], dict, out + b)
  {
    var c := Min(BufferSize, |rest|);
    BlockMeaning(rest[..c], dict);
    b := Map(rest[..c], dict) + Zeros(BufferSize - c);
  }

  /** The written blocks, regrouped: a full block is followed by the rest, a partial one ends the output. */
  lemma Assemble(out: seq<Byte>, mc: seq<Byte>, ma: seq<Byte>, n: nat)
    requires 0 < |mc| <= BufferSize && (|mc| < BufferSize ==> n == 0) && |ma| == n
    ensures out + (mc + Zeros(BufferSize - |mc|)) + ma + Zeros(Padding(n)) == out + (mc + ma) + Zeros(Padding(|mc| + n))
  {
    if |mc| < BufferSize {
      assert ma == [] && Zeros(Padding(0)) == [];
    } else {
      assert Zeros(0) == [];
    }
  }

  /** The remaining bytes are a chunk and what follows it; they all have entries when both parts do. */
  lemma SplitInDict(rest: seq<Byte>, chunk: seq<Byte>, after: seq<Byte>, dict: seq<Byte>)
    requires rest == chunk + after
    ensures InDict(dict, rest, 0, |rest|) <==> InDict(dict, chunk, 0, |chunk|) && InDict(dict, after, 0, |after|)
  {
    assert forall i :: 0 <= i < |chunk| ==> rest[i] == chunk[i];
    assert forall i :: 0 <= i < |after| ==> rest[|chunk| + i] == after[i];
  }

  /**
   * `Encrypt` succeeds exactly when every byte has a dictionary entry
   * (always, for a dictionary of 256 bytes); the output is the replaced
   * data followed by zeros up to a whole number of 8192-byte blocks.
   */
  lemma EncryptedMeaning(data: seq<Byte>, dict: seq<Byte>)
    ensures Encrypted(data, dict).Ok? <==> InDict(dict, data, 0, |data|)
    ensures Encrypted(data, dict).Ok? ==> Encrypted(data, dict).value == Map(data, dict) + Zeros(Padding(|data|))
    ensures |dict| >= 256 ==> Encrypted(data, dict).Ok?
  {
    EncryptRestOk(data, dict, []);
    if |dict| >= 256 {
      FullDictionary(dict, data);
    }
    if InDict(dict, data, 0, |data|) {
      EncryptRestValue(data, dict, []);
      var m := Map(data, dict) + Zeros(Padding(|data|));
      assert [] + m == m;
    }
  }

  /** The encrypted output is a whole number of blocks, at most one of them partly padding. */
  lemma EncryptedLength(data: seq<Byte>, dict: seq<Byte>)
    requires Encrypted(data, dict).Ok?
    ensures var e := Encrypted(data, dict).value;
      |e| % BufferSize == 0 && |data| <= |e| < |data| + BufferSize
  {
    EncryptedMeaning(data, dict);
    var q := WholeBlocksOf(|data|);
    DivUnique(|data| + Padding(|data|), BufferSize, q, 0);
  }

  /** The first byte without a dictionary entry makes `Encrypt` throw, naming that byte's unsigned value. */
  lemma EncryptRefused(data: seq<Byte>, dict: seq<Byte>, i: nat)
    requires i < |data| && InDict(dict, data, 0, i) && ByteUtils.ToUnsigned(data[i]) >= |dict|
    ensures Encrypted(data, dict) == Err(Raise(ArrayIndexOutOfBounds, DecimalString(ByteUtils.ToUnsigned(data[i]))))
  {
    EncryptRestRefused(data, dict, [], i);
  }

  /** The loop throws at the first remaining byte without an entry, after the blocks before it. */
  lemma {:induction false} EncryptRestRefused(rest: seq<Byte>, dict: seq<Byte>, out: seq<Byte>, i: nat)
    requires i < |rest| && InDict(dict, rest, 0, i) && ByteUtils.ToUnsigned(rest[i]) >= |dict|
    ensures EncryptRest(rest, dict, out) == Err(Raise(ArrayIndexOutOfBounds, DecimalString(ByteUtils.ToUnsigned(rest[i]))))
    decreases |rest|
  {
    var c := Min(BufferSize, |rest|);
    var chunk := rest[..c];
    EncryptRestStep(rest, dict, out);
    if i < c {
      RefusedInChunk(chunk, dict, i);
    } else {
      var after := rest[c..];
      BlockMeaning(chunk, dict);
      InDictSplit(dict, rest, c, i - c);
      assert after[i - c] == rest[i];
      EncryptRestRefused(after, dict, out + Block(chunk, dict).value, i - c);
    }
  }

  /** Entries for the first `c + m` bytes are entries for the first `c` and for the `m` after them. */
  lemma InDictSplit(dict: seq<Byte>, rest: seq<Byte>, c: nat, m: nat)
    requires c <= |rest| && InDict(dict, rest, 0, c + m)
    ensures InDict(dict, rest[..c], 0, c) && InDict(dict, rest[c..], 0, m)
  {
    assert forall k :: 0 <= k < c ==> rest[..c][k] == rest[k];
    assert forall k :: 0 <= k < |rest| - c ==> rest[c..][k] == rest[c + k];
  }

  /** A chunk whose byte `i` is the first without an entry: its block throws for that byte. */
  lemma RefusedInChunk(chunk: seq<Byte>, dict: seq<Byte>, i: nat)
    requires i < |chunk| <= BufferSize && InDict(dict, chunk, 0, i) && ByteUtils.ToUnsigned(chunk[i]) >= |dict|
    ensures Block(chunk, dict) == Err(Raise(ArrayIndexOutOfBounds, DecimalString(ByteUtils.ToUnsigned(chunk[i]))))
  {
    var buf := chunk + Zeros(BufferSize - |chunk|);
    assert buf[i] == chunk[i];
    assert InDict(dict, buf, 0, i) by {
      assert forall k :: 0 <= k < i ==> buf[k] == chunk[k];
    }
    FirstFailure(buf, 0, |chunk|, dict, Zeros(BufferSize), i);
  }

  // ---------------------------------------------------------------------
  // The dictionary and its pair
  // ---------------------------------------------------------------------

  /** The byte values in the order `Generate` puts them in its pool: -128 up to 127. */
  function AllBytes(): (s: seq<Byte>)
    ensures |s| == 256 && forall i :: 0 <= i < 256 ==> s[i] == i - 128
  {
    seq(256, i => ToByte(i - 128))
  }

  /** A dictionary: 256 bytes holding each byte value once. */
  predicate IsDictionary(d: seq<Byte>)
  {
    |d| == 256 && multiset(d) == multiset(AllBytes())
  }

  /** No two of the first `k` bytes are equal. */
  predicate Distinct(d: seq<Byte>, k: nat)
    requires k <= |d|
  {
    forall i, j :: 0 <= i < j < k ==> d[i] != d[j]
  }

  /** The reversed dictionary after `k` turns of the `GetDictionaryPair` loop: `fin[ToUnsigned(dictionary[u])] = (byte) u`. */
  function PairAfter(d: seq<Byte>, k: nat): (p: seq<Byte>)
    requires k <= |d| && k <= 256
    ensures |p| == 256
  {
    if k == 0 then Zeros(256) else PairAfter(d, k - 1)[ByteUtils.ToUnsigned(d[k - 1]) := ToByte(k - 1)]
  }

  /** What `GetDictionaryPair(dictionary)` returns or throws: it reads the first 256 entries. */
  function PairOf(d: seq<Byte>): Result<seq<Byte>, Thrown>
  {
    if |d| < 256 then Err(Raise(ArrayIndexOutOfBounds, DecimalString(|d|))) else Ok(PairAfter(d, 256))
  }

  /** `GetDictionaryPair`: a new 256-byte array; entry `u` of the dictionary is looked up to store `u` at its unsigned value. */
  method GetDictionaryPair(dict: array<Byte>) returns (r: Result<array<Byte>, Thrown>)
    ensures r.Ok? ==> fresh(r.value) && PairOf(dict[..]) == Ok(r.value[..])
    ensures r.Err? ==> PairOf(dict[..]) == Err(r.error)
  {
    var fin := new Byte[256](_ => 0);
    assert fin[..] == Zeros(256);
    for u := 0 to 256
      invariant u <= dict.Length
      invariant fin[..] == PairAfter(dict[..], u)
    {
      if u >= dict.Length {
        return Err(Raise(ArrayIndexOutOfBounds, DecimalString(u)));
      }
      fin[ByteUtils.ToUnsigned(dict[u])] := ToByte(u);
    }
    return Ok(fin);
  }

  /** What `Decrypt(data, dictionary)` returns or throws: `Encrypt` with the reversed dictionary. */
  function Decrypted(data: seq<Byte>, dict: seq<Byte>): Result<seq<Byte>, Thrown>
  {
    match PairOf(dict)
    case Err(e) => Err(e)
    case Ok(p) => Encrypted(data, p)
  }

  /** `Decrypt`. */
  method Decrypt(data: array<Byte>, dict: array<Byte>) returns (r: Result<seq<Byte>, Thrown>)
    ensures r == Decrypted(data[..], dict[..])
  {
    var pair := GetDictionaryPair(dict);
    if pair.Err? {
      return Err(pair.error);
    }
    r := Encrypt(data, pair.value);
  }

  /** The unsigned values of distinct bytes are distinct. */
  lemma UnsignedInjective(a: Byte, b: Byte)
    requires ByteUtils.ToUnsigned(a) == ByteUtils.ToUnsigned(b)
    ensures a == b
  {
  }

  /** After `k` turns, the slot of each of the first `k` distinct entries holds that entry's index. */
  lemma {:induction false} PairAfterAt(d: seq<Byte>, k: nat, j: nat)
    requires k <= |d| && k <= 256 && Distinct(d, k) && j < k
    ensures PairAfter(d, k)[ByteUtils.ToUnsigned(d[j])] == ToByte(j)
  {
    if j < k - 1 {
      if ByteUtils.ToUnsigned(d[k - 1]) == ByteUtils.ToUnsigned(d[j]) {
        UnsignedInjective(d[k - 1], d[j]);
      }
      PairAfterAt(d, k - 1, j);
    }
  }

  /** `b` is counted at least twice when it sits at two positions. */
  lemma TwiceCounted(s: seq<Byte>, i: nat, j: nat)
    requires i < j < |s| && s[i] == s[j]
    ensures multiset(s)[s[i]] >= 2
  {
    var a, b, c := s[..i], s[i + 1..j], s[j + 1..];
    assert s == a + [s[i]] + b + [s[j]] + c;
  }

  /** Each value occurs in `AllBytes` at its offset from -128, and only there. */
  lemma AllBytesOnce(b: Byte)
    ensures AllBytes()[b + 128] == b
    ensures multiset(AllBytes())[b] == 1
  {
    var k := b + 128;
    var s := AllBytes();
    assert s == s[..k] + [b] + s[k + 1..];
    var front, back := s[..k], s[k + 1..];
    assert b !in front by {
      assert forall i :: 0 <= i < |front| ==> front[i] == s[i] < b;
    }
    assert b !in back by {
      assert forall i :: 0 <= i < |back| ==> back[i] == s[k + 1 + i] > b;
    }
  }

  /** A dictionary's entries are distinct. */
  lemma DictionaryDistinct(d: seq<Byte>)
    requires IsDictionary(d)
    ensures Distinct(d, 256)
  {
    forall i, j | 0 <= i < j < 256
      ensures d[i] != d[j]
    {
      if d[i] == d[j] {
        TwiceCounted(d, i, j);
        AllBytesOnce(d[i]);
        assert false;
      }
    }
  }

  /** Every byte value is some entry of a dictionary. */
  lemma DictionaryIndex(d: seq<Byte>, b: Byte) returns (k: nat)
    requires IsDictionary(d)
    ensures k < 256 && d[k] == b
  {
    AllBytesOnce(b);
    assert b in multiset(d);
    k :| 0 <= k < |d| && d[k] == b;
  }

  /**
   * The pair of a dictionary undoes it, and it undoes the pair: looking a
   * byte up in one and the result in the other gives the byte back.
   */
  lemma PairInverse(d: seq<Byte>, b: Byte)
    requires IsDictionary(d)
    ensures PairAfter(d, 256)[ByteUtils.ToUnsigned(d[ByteUtils.ToUnsigned(b)])] == b
    ensures d[ByteUtils.ToUnsigned(PairAfter(d, 256)[ByteUtils.ToUnsigned(b)])] == b
  {
    DictionaryDistinct(d);
    PairAfterAt(d, 256, ByteUtils.ToUnsigned(b));
    var k := DictionaryIndex(d, b);
    PairAfterAt(d, 256, k);
    ByteUtils.UnsignedOfByte(k);
  }

  /** Replacing with a dictionary and then with its pair gives the data back. */
  lemma MapInverse(data: seq<Byte>, d: seq<Byte>)
    requires IsDictionary(d)
    ensures Map(Map(data, d), PairAfter(d, 256)) == data
  {
    var p := PairAfter(d, 256);
    var m := Map(data, d);
    forall i | 0 <= i < |data|
      ensures Map(m, p)[i] == data[i]
    {
      MapAt(data, d, i);
      MapAt(m, p, i);
      PairInverse(d, data[i]);
    }
  }

  /**
   * `Decrypt(Encrypt(data, d), d)`: the data comes back, followed by the
   * padding zeros of the last block, which decrypt to the entry of 0 in
   * the pair.
   */
  lemma DecryptEncrypt(data: seq<Byte>, d: seq<Byte>)
    requires IsDictionary(d)
    ensures Encrypted(data, d).Ok?
    ensures Decrypted(Encrypted(data, d).value, d) == Ok(data + Repeat(PairAfter(d, 256)[0], Padding(|data|)))
  {
    var p := PairAfter(d, 256);
    EncryptedMeaning(data, d);
    var e := Encrypted(data, d).value;
    var m, z := Map(data, d), Zeros(Padding(|data|));
    assert e == m + z;
    WholeBlocks(data, e);
    FullDictionary(p, e);
    EncryptedMeaning(e, p);
    assert Map(e, p) + Zeros(Padding(|e|)) == Map(e, p);
    assert Encrypted(e, p) == Ok(Map(e, p));
    MapInverse(data, d);
    MapConcat(m, z, p);
    MapZeros(|z|, p);
    assert Map(e, p) == data + Repeat(p[0], Padding(|data|));
    assert PairOf(d) == Ok(p);
  }

  /** Data padded to whole blocks needs no more padding. */
  lemma WholeBlocks(data: seq<Byte>, e: seq<Byte>)
    requires |e| == |data| + Padding(|data|)
    ensures Padding(|e|) == 0 && Zeros(Padding(|e|)) == []
  {
    var q := WholeBlocksOf(|data|);
    PaddingWhole(q);
  }

  /** Every byte has an entry in a dictionary of at least 256 bytes. */
  lemma FullDictionary(dict: seq<Byte>, data: seq<Byte>)
    requires |dict| >= 256
    ensures InDict(dict, data, 0, |data|)
  {
  }

  /** Zeros are all replaced by the entry at 0. */
  lemma {:induction false} MapZeros(n: nat, dict: seq<Byte>)
    requires |dict| >= 256
    ensures Map(Zeros(n), dict) == Repeat(dict[0], n)
  {
    if n > 0 {
      assert Zeros(n)[1..] == Zeros(n - 1);
      MapZeros(n - 1, dict);
      assert Repeat(dict[0], n) == [dict[0]] + Repeat(dict[0], n - 1);
    }
  }

  // ---------------------------------------------------------------------
  // Generate
  // ---------------------------------------------------------------------

  /** Draws that `rand.nextInt(pool.size())` can give: the `u`-th is below the pool's size after `u` removals. */
  predicate Draws(pool: seq<Byte>, indices: seq<int>)
  {
    |indices| <= |pool| && forall u :: 0 <= u < |indices| ==> 0 <= indices[u] < |pool| - u
  }

  /** The bytes chosen by the draws, each removed from the pool once chosen. */
  function Drawn(pool: seq<Byte>, indices: seq<int>): (r: seq<Byte>)
    requires Draws(pool, indices)
    ensures |r| == |indices|
  {
    if indices == [] then []
    else
      DrawsRest(pool, indices);
      [pool[indices[0]]] + Drawn(Removed(pool, indices[0]), indices[1..])
  }

  /** `pool.remove(k)`. */
  function Removed(pool: seq<Byte>, k: nat): (r: seq<Byte>)
    requires k < |pool|
    ensures |r| == |pool| - 1
  {
    pool[..k] + pool[k + 1..]
  }

  /** After the first draw, the rest are draws from what remains of the pool. */
  lemma DrawsRest(pool: seq<Byte>, indices: seq<int>)
    requires Draws(pool, indices) && indices != []
    ensures Draws(Removed(pool, indices[0]), indices[1..])
  {
    assert forall u :: 0 <= u < |indices| - 1 ==> indices[1..][u] == indices[u + 1];
  }

  /** The first draw takes its byte out of the pool; the rest draw from what remains. */
  lemma DrawnStep(pool: seq<Byte>, indices: seq<int>)
    requires Draws(pool, indices) && indices != []
    ensures 0 <= indices[0] < |pool| && Draws(Removed(pool, indices[0]), indices[1..])
    ensures Drawn(pool, indices) == [pool[indices[0]]] + Drawn(Removed(pool, indices[0]), indices[1..])
  {
    DrawsRest(pool, indices);
  }

  lemma Regroup(done: seq<Byte>, b: Byte, rest: seq<Byte>)
    ensures done + [b] + rest == done + ([b] + rest)
  {
  }

  /**
   * `Generate`: the pool holds -128..127; each of 256 turns moves the pool
   * entry at the next draw into the dictionary. The draws stand for the
   * random generator, whichever of the three overloads supplies it.
   */
  method Generate(indices: seq<int>) returns (fin: array<Byte>)
    requires Draws(AllBytes(), indices) && |indices| == 256
    ensures fresh(fin) && fin[..] == Drawn(AllBytes(), indices)
  {
    fin := new Byte[256](_ => 0);
    var pool: seq<Byte> := [];
    for u := -128 to 128
      invariant pool == AllBytes()[..u + 128]
    {
      pool := pool + [ToByte(u)];
    }
    assert pool == AllBytes();
    for u := 0 to 256
      invariant |pool| == 256 - u && Draws(pool, indices[u..])
      invariant fin[..u] + Drawn(pool, indices[u..]) == Drawn(AllBytes(), indices)
    {
      ghost var ind, done := indices[u..], fin[..u];
      DrawnStep(pool, ind);
      assert ind[1..] == indices[u + 1..];
      var index := indices[u];
      var chosen := pool[index];
      fin[u] := chosen;
      assert fin[..u + 1] == done + [chosen];
      pool := Removed(pool, index);
      Regroup(done, chosen, Drawn(pool, ind[1..]));
    }
    assert fin[..] == fin[..256];
  }

  /** The draws of a whole pool are a reordering of it. */
  lemma {:induction false} DrawnPermutes(pool: seq<Byte>, indices: seq<int>)
    requires Draws(pool, indices) && |indices| == |pool|
    ensures multiset(Drawn(pool, indices)) == multiset(pool)
  {
    if indices != [] {
      var k := indices[0];
      var rest := Removed(pool, k);
      DrawsRest(pool, indices);
      DrawnPermutes(rest, indices[1..]);
      assert pool == pool[..k] + [pool[k]] + pool[k + 1..];
    }
  }

  /** Whatever the random generator gives, `Generate` returns a dictionary. */
  lemma GeneratedIsDictionary(indices: seq<int>)
    requires Draws(AllBytes(), indices) && |indices| == 256
    ensures IsDictionary(Drawn(AllBytes(), indices))
  {
    DrawnPermutes(AllBytes(), indices);
  }
}

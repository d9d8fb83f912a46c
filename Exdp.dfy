/**
 * `EXDP`, the Exom data package: a list of named byte arrays written as
 * length-prefixed records, and the `"EXDP"` magic that frames a package.
 */
module Exdp {
  import opened Wrappers
  import opened Jvm
  import ByteUtils
  import ExmyVars

  /** `NamedObject<byte[]>`: a name and a byte array. */
  datatype Item = Item(name: string, value: seq<Byte>)

  /** `EXDP_MAGIC`: "EXDP" in US-ASCII. */
  const Magic: seq<Byte> := [69, 88, 68, 80]

  /** Every value fits a Java array, whose length is an `int`. */
  predicate JavaSized(items: seq<Item>)
  {
    forall i :: 0 <= i < |items| ==> |items[i].value| < 0x8000_0000
  }

  /** The record of one item: the name's length as a byte, the name in US-ASCII, the value's length in four big-endian bytes, the value. */
  function Record(it: Item): seq<Byte>
  {
    [ToByte(|it.name|)] + ExmyVars.Ascii(it.name) + ByteUtils.BigEndian(|it.value|, 4) + it.value
  }

  /** The records of the items, in list order. */
  function Records(items: seq<Item>): seq<Byte>
  {
    if items == [] then [] else Records(items[..|items| - 1]) + Record(items[|items| - 1])
  }

  /** Some name is too long for its one length byte. */
  predicate LongName(items: seq<Item>)
  {
    exists i :: 0 <= i < |items| && |items[i].name| > 255
  }

  /** What `Encode` returns or throws. */
  function Encoded(items: seq<Item>): Result<seq<Byte>, Thrown>
  {
    if LongName(items) then Err(Raise(IllegalArgument, "Name length is greater than 255.")) else Ok(Records(items))
  }

  /**
   * `Encode`: the items' records written byte by byte, in list order. The
   * first name longer than 255 characters throws; the bytes written so far
   * are dropped with the stream.
   */
  method Encode(data: seq<Item>) returns (r: Result<seq<Byte>, Thrown>)
    requires JavaSized(data)
    ensures r == Encoded(data)
  {
    var fin: seq<Byte> := [];
    for u := 0 to |data|
      invariant fin == Records(data[..u])
      invariant !LongName(data[..u])
    {
      var item := data[u];
      var nameLength := |item.name|;
      if nameLength > 255 {
        return Err(Raise(IllegalArgument, "Name length is greater than 255."));
      }
      ShortNameSnoc(data, u);
      fin := WriteRecord(fin, item);
      RecordsSnoc(data, u);
    }
    assert data[..|data|] == data;
    return Ok(fin);
  }

  /** The body of the `Encode` loop for an item whose name fits its length byte. */
  method WriteRecord(fin: seq<Byte>, item: Item) returns (fin': seq<Byte>)
    requires |item.name| <= 255 && |item.value| < 0x8000_0000
    ensures fin' == fin + Record(item)
  {
    var nameLength := |item.name|;
    fin' := fin + [ToByte(nameLength)];
    var nameBytes := ExmyVars.Ascii(item.name);
    fin' := Write(fin', nameBytes);
    var valueLengthBytes := ByteUtils.IntToBytes(|item.value|);
    fin' := Write(fin', valueLengthBytes[..]);
    fin' := Write(fin', item.value);
    Assoc4(fin, [ToByte(nameLength)], nameBytes, valueLengthBytes[..], item.value);
  }

  lemma Assoc4(a: seq<Byte>, b: seq<Byte>, c: seq<Byte>, d: seq<Byte>, e: seq<Byte>)
    ensures a + b + c + d + e == a + (b + c + d + e)
  {
  }

  lemma ShortNameSnoc(items: seq<Item>, k: nat)
    requires k < |items| && !LongName(items[..k]) && |items[k].name| <= 255
    ensures !LongName(items[..k + 1])
  {
    assert forall i :: 0 <= i < k ==> items[..k + 1][i] == items[..k][i];
  }

  /** One more item adds its record at the end. */
  lemma RecordsSnoc(items: seq<Item>, k: nat)
    requires k < |items|
    ensures Records(items[..k + 1]) == Records(items[..k]) + Record(items[k])
  {
    assert items[..k + 1][..k] == items[..k];
  }

  /** The `fin.write` loops: the bytes appended one at a time. */
  method Write(fin: seq<Byte>, bytes: seq<Byte>) returns (fin': seq<Byte>)
    ensures fin' == fin + bytes
  {
    fin' := fin;
    for l := 0 to |bytes|
      invariant fin' == fin + bytes[..l]
    {
      fin' := fin' + [bytes[l]];
    }
    assert bytes[..|bytes|] == bytes;
  }

  /** `Σ (5 + |name| + |value|)`. */
  function Size(items: seq<Item>): nat
  {
    if items == [] then 0 else Size(items[..|items| - 1]) + 5 + |items[|items| - 1].name| + |items[|items| - 1].value|
  }

  /** The encoding takes five bytes per item besides its name and value. */
  lemma {:induction false} EncodedLength(items: seq<Item>)
    ensures |Records(items)| == Size(items)
  {
    if items != [] {
      EncodedLength(items[..|items| - 1]);
    }
  }

  /**
   * `Arrays.copyOfRange(data, u, u + n)` followed by `u += n`, both in
   * 32-bit arithmetic: the bytes taken and the new cursor. A cursor that
   * lies outside the data or a negative length is an exception; an end
   * that wraps around still takes `n` bytes, and leaves the cursor negative.
   */
  function Field(data: seq<Byte>, u: Int32, n: Int32): (r: Result<(seq<Byte>, Int32), Thrown>)
    ensures r.Ok? <==> 0 <= u <= |data| && n >= 0
    ensures r.Ok? ==> r.value.1 == ToInt32(u + n) && |r.value.0| == n
    ensures r.Ok? && u + n <= |data| ==> r.value.0 == data[u..u + n]
  {
    var next := ToInt32(u + n);
    WrapBack(u, n);
    match CopyOfRange(data, u, next)
    case Err(e) => Err(e)
    case Ok(bytes) => Ok((bytes, next))
  }

  /** A field that lies inside the data is taken as it is. */
  lemma FieldInside(data: seq<Byte>, u: nat, n: nat)
    requires u + n <= |data| < 0x8000_0000
    ensures Field(data, u, n) == Ok((data[u..u + n], u + n))
  {
  }

  /**
   * One turn of the `Decode` loop at cursor `u`: the name length byte read
   * unsigned, the name, the value length through `ToInt`, and the value.
   * Gives the item and the new cursor, which has moved past the record
   * unless that went beyond `Integer.MAX_VALUE` and wrapped to a negative one.
   */
  function Step(data: seq<Byte>, u: nat): (r: Result<(Item, Int32), Thrown>)
    requires u < |data| < 0x8000_0000
    ensures r.Ok? && u + 5 + |r.value.0.name| + |r.value.0.value| < 0x8000_0000 ==> r.value.1 == u + 5 + |r.value.0.name| + |r.value.0.value|
    ensures r.Ok? ==> r.value.1 > u || r.value.1 < 0
  {
    var nameLength := ByteUtils.ToUnsigned(data[u]);
    match Field(data, u + 1, nameLength)
    case Err(e) => Err(e)
    case Ok((name, u2)) =>
      match Field(data, u2, 4)
      case Err(e) => Err(e)
      case Ok((lengthBytes, u3)) =>
        var valueLength := ToInt32(ByteUtils.Value(lengthBytes[..4]));
        match Field(data, u3, valueLength)
        case Err(e) => Err(e)
        case Ok((value, u4)) => Ok((Item(ExmyVars.FromAscii(name), value), u4))
  }

  /** The cursor `Decode` reads at next is read from after the record at `u`, or is negative. */
  function Measure(data: seq<Byte>, u: int): nat
  {
    if 0 <= u <= |data| then |data| - u + 1 else 0
  }

  /**
   * The `Decode` loop from cursor `u`, with `acc` read already: it stops
   * once the cursor is at or past the end, and a negative cursor makes the
   * next `data[u++]` throw.
   */
  function Decoding(data: seq<Byte>, u: int, acc: seq<Item>): Result<seq<Item>, Thrown>
    requires |data| < 0x8000_0000
    decreases Measure(data, u)
  {
    if u >= |data| then Ok(acc)
    else if u < 0 then Err(Raise(ArrayIndexOutOfBounds, DecimalString(u)))
    else match Step(data, u)
      case Err(e) => Err(e)
      case Ok((item, next)) => Decoding(data, next, acc + [item])
  }

  /** `Decode`: reads records until the cursor reaches the end of the data. */
  method Decode(data: array<Byte>) returns (r: Result<seq<Item>, Thrown>)
    requires data.Length < 0x8000_0000
    ensures r == Decoding(data[..], 0, [])
  {
    var fin: seq<Item> := [];
    var u: Int32 := 0;
    while u < data.Length
      invariant Decoding(data[..], u, fin) == Decoding(data[..], 0, [])
      decreases Measure(data[..], u)
    {
      if u < 0 {
        return Err(Raise(ArrayIndexOutOfBounds, DecimalString(u)));
      }
      var nameLength := ByteUtils.ToUnsigned(data[u]);
      var nameField := Field(data[..], u + 1, nameLength);
      var name := ExmyVars.FromAscii(nameField.value.0);
      u := nameField.value.1;
      var lengthField := Field(data[..], u, 4);
      if lengthField.Err? {
        return Err(lengthField.error);
      }
      var valueLength := ToInt32(ByteUtils.Value(lengthField.value.0[..4]));
      u := lengthField.value.1;
      var valueField := Field(data[..], u, valueLength);
      if valueField.Err? {
        return Err(valueField.error);
      }
      u := valueField.value.1;
      fin := fin + [Item(name, valueField.value.0)];
    }
    return Ok(fin);
  }

  /** A slice of the middle part of `pre + r + rest`, counted from the start of `r`. */
  lemma InRecord(pre: seq<Byte>, r: seq<Byte>, rest: seq<Byte>, i: nat, j: nat)
    requires i <= j <= |r|
    ensures (pre + r + rest)[|pre| + i..|pre| + j] == r[i..j]
  {
    var data := pre + r + rest;
    forall k | 0 <= k < j - i
      ensures data[|pre| + i..|pre| + j][k] == r[i..j][k]
    {
      assert data[|pre| + i + k] == r[i + k];
    }
  }

  /** Where each part of a record lies in it. */
  lemma RecordLayout(it: Item)
    requires |it.value| < 0x8000_0000
    ensures var r, n, v := Record(it), |it.name|, |it.value|;
      |r| == 5 + n + v && r[0] == ToByte(n) && r[1..1 + n] == ExmyVars.Ascii(it.name)
      && r[1 + n..5 + n] == ByteUtils.BigEndian(v, 4) && r[5 + n..5 + n + v] == it.value
  {
    var a, l := ExmyVars.Ascii(it.name), ByteUtils.BigEndian(|it.value|, 4);
    var r := Record(it);
    var n := |it.name|;
    assert r == [ToByte(n)] + a + l + it.value;
    assert r[1..1 + n] == a;
    assert r[1 + n..5 + n] == l;
    assert r[5 + n..] == it.value;
  }

  /** The four bytes `7F FF FF FF` read as a length: `Integer.MAX_VALUE`. */
  lemma MaxLengthBytes(len: seq<Byte>)
    requires len == [0x7F, -1, -1, -1]
    ensures ToInt32(ByteUtils.Value(len[..4])) == 0x7FFF_FFFF
  {
    var b1: seq<Byte>, b2: seq<Byte>, b3: seq<Byte> := [0x7F], [0x7F, -1], [0x7F, -1, -1];
    assert ByteUtils.ToUnsigned(-1) == 255;
    assert b1[..0] == [] && ByteUtils.Value(b1) == 0x7F;
    assert b2[..1] == b1 && ByteUtils.Value(b2) == 0x7FFF;
    assert b3[..2] == b2 && ByteUtils.Value(b3) == 0x7F_FFFF;
    assert len[..4] == len && len[..3] == b3;
  }

  /**
   * An empty name and a value length of `Integer.MAX_VALUE`: the cursor
   * `5 + 0x7FFF_FFFF` wraps to a negative one, and the value still takes
   * that many bytes, zeros past the end.
   */
  lemma WrappedStep(data: seq<Byte>)
    requires data == [0, 0x7F, -1, -1, -1]
    ensures Step(data, 0).Ok? && Step(data, 0).value.1 == -2147483644
    ensures |Step(data, 0).value.0.value| == 0x7FFF_FFFF
  {
    assert Field(data, 1, 0) == Ok(([], 1));
    assert Field(data, 1, 4) == Ok((data[1..5], 5));
    MaxLengthBytes(data[1..5]);
  }

  /** The record of `WrappedStep` leaves the cursor negative, so the next `data[u++]` of the `Decode` loop throws. */
  lemma WrappedCursor(data: seq<Byte>)
    requires data == [0, 0x7F, -1, -1, -1]
    ensures Decoding(data, 0, []) == Err(Raise(ArrayIndexOutOfBounds, DecimalString(-2147483644)))
  {
    WrappedStep(data);
    var next := Step(data, 0).value.1;
    assert Decoding(data, 0, []) == Decoding(data, next, [Step(data, 0).value.0]);
  }

  /** The record of `it` lies at cursor `u` of the data: its length byte, name, value length and value. */
  predicate RecordAt(data: seq<Byte>, u: nat, it: Item)
  {
    |it.value| < 0x8000_0000 && u + 5 + |it.name| + |it.value| <= |data|
    && data[u] == ToByte(|it.name|)
    && data[u + 1..u + 1 + |it.name|] == ExmyVars.Ascii(it.name)
    && data[u + 1 + |it.name|..u + 5 + |it.name|] == ByteUtils.BigEndian(|it.value|, 4)
    && data[u + 5 + |it.name|..u + 5 + |it.name| + |it.value|] == it.value
  }

  /** The three fields of a record that lies at cursor `u` are taken as they are. */
  lemma FieldsAt(data: seq<Byte>, u: nat, it: Item)
    requires |data| < 0x8000_0000 && RecordAt(data, u, it)
    ensures Field(data, u + 1, |it.name|) == Ok((ExmyVars.Ascii(it.name), u + 1 + |it.name|))
    ensures Field(data, u + 1 + |it.name|, 4) == Ok((ByteUtils.BigEndian(|it.value|, 4), u + 5 + |it.name|))
    ensures Field(data, u + 5 + |it.name|, |it.value|) == Ok((it.value, u + 5 + |it.name| + |it.value|))
  {
    FieldInside(data, u + 1, |it.name|);
    FieldInside(data, u + 1 + |it.name|, 4);
    FieldInside(data, u + 5 + |it.name|, |it.value|);
  }

  /** `Step` at a record: the name as its bytes decode, the value, and the cursor just after it. */
  lemma StepAt(data: seq<Byte>, u: nat, it: Item)
    requires |it.name| <= 255 && |data| < 0x8000_0000 && RecordAt(data, u, it)
    ensures Step(data, u) == Ok((Item(ExmyVars.FromAscii(ExmyVars.Ascii(it.name)), it.value), u + 5 + |it.name| + |it.value|))
  {
    ByteUtils.UnsignedOfByte(|it.name|);
    FieldsAt(data, u, it);
    ByteUtils.BigEndianRead(|it.value|);
  }

  /** An item whose record lies at cursor `u` of the data is read back, and the cursor lands just after it. */
  lemma DecodeAt(data: seq<Byte>, u: nat, it: Item)
    requires |it.name| <= 255 && ExmyVars.IsAscii(it.name) && |data| < 0x8000_0000 && RecordAt(data, u, it)
    ensures Step(data, u) == Ok((it, u + |Record(it)|))
  {
    RecordLayout(it);
    StepAt(data, u, it);
    ExmyVars.AsciiRoundTrip(it.name);
    assert Item(ExmyVars.FromAscii(ExmyVars.Ascii(it.name)), it.value) == it;
  }

  /** The record of a storable item is read back as that item, and the cursor lands just after it. */
  lemma DecodeRecord(pre: seq<Byte>, it: Item, rest: seq<Byte>)
    requires |it.name| <= 255 && ExmyVars.IsAscii(it.name)
    requires |pre + Record(it) + rest| < 0x8000_0000
    ensures Step(pre + Record(it) + rest, |pre|) == Ok((it, |pre| + |Record(it)|))
  {
    var data := pre + Record(it) + rest;
    RecordPlaced(pre, it, rest);
    DecodeAt(data, |pre|, it);
  }

  /** The record of an item lies where it was put. */
  lemma RecordPlaced(pre: seq<Byte>, it: Item, rest: seq<Byte>)
    requires |it.name| <= 255 && |pre + Record(it) + rest| < 0x8000_0000
    ensures |Record(it)| == 5 + |it.name| + |it.value|
    ensures RecordAt(pre + Record(it) + rest, |pre|, it)
  {
    var r := Record(it);
    var n := |it.name|;
    RecordLayout(it);
    InRecord(pre, r, rest, 0, 1);
    assert r[0..1][0] == r[0];
    InRecord(pre, r, rest, 1, 1 + n);
    InRecord(pre, r, rest, 1 + n, 5 + n);
    InRecord(pre, r, rest, 5 + n, |r|);
  }

  /** The records of a prefix of the items are a prefix of the records of all of them. */
  lemma {:induction false} RecordsPrefix(items: seq<Item>, j: nat)
    requires j <= |items|
    ensures Records(items[..j]) <= Records(items)
    decreases |items|
  {
    if j < |items| {
      var front := items[..|items| - 1];
      assert items[..j] == front[..j];
      RecordsPrefix(front, j);
    } else {
      assert items[..j] == items;
    }
  }

  /** Names `Decode` reads back unchanged: US-ASCII, at most 255 characters. */
  predicate Storable(items: seq<Item>)
  {
    forall i :: 0 <= i < |items| ==> |items[i].name| <= 255 && ExmyVars.IsAscii(items[i].name)
  }

  /** A turn of the loop that reads an item moves on with it appended. */
  lemma DecodingStep(data: seq<Byte>, u: nat, acc: seq<Item>, it: Item, next: Int32)
    requires u < |data| < 0x8000_0000 && Step(data, u) == Ok((it, next))
    ensures Decoding(data, u, acc) == Decoding(data, next, acc + [it])
  {
  }

  lemma TakeSnoc<T>(s: seq<T>, k: nat)
    requires k < |s|
    ensures s[..k] + [s[k]] == s[..k + 1]
  {
  }

  lemma PrefixRest<T>(p: seq<T>, s: seq<T>)
    requires p <= s
    ensures s == p + s[|p|..]
  {
  }

  /** From the end of the first `k` records, the loop reads the remaining items. */
  lemma {:induction false} DecodeRest(items: seq<Item>, k: nat)
    requires k <= |items| && Storable(items) && |Records(items)| < 0x8000_0000
    ensures Decoding(Records(items), |Records(items[..k])|, items[..k]) == Ok(items)
    decreases |items| - k
  {
    var e := Records(items);
    if k == |items| {
      assert items[..k] == items;
    } else {
      var done := Records(items[..k]);
      var it := items[k];
      RecordsSnoc(items, k);
      RecordsPrefix(items, k + 1);
      var next := Records(items[..k + 1]);
      assert next == done + Record(it);
      var rest := e[|next|..];
      PrefixRest(next, e);
      assert |it.name| <= 255 && ExmyVars.IsAscii(it.name);
      DecodeRecord(done, it, rest);
      TakeSnoc(items, k);
      DecodingStep(e, |done|, items[..k], it, |next|);
      DecodeRest(items, k + 1);
    }
  }

  /** `Decode(Encode(items)) == items` for names of at most 255 US-ASCII characters. */
  lemma EncodeDecode(items: seq<Item>)
    requires Storable(items) && |Records(items)| < 0x8000_0000
    ensures Encoded(items) == Ok(Records(items))
    ensures Decoding(Records(items), 0, []) == Ok(items)
  {
    DecodeRest(items, 0);
    assert items[..0] == [];
  }

  /** A name longer than 255 characters makes `Encode` throw. */
  lemma LongNameRefused(items: seq<Item>, i: nat)
    requires i < |items| && |items[i].name| > 255
    ensures Encoded(items) == Err(Raise(IllegalArgument, "Name length is greater than 255."))
  {
  }

  /** `Pack` without a key: the magic, then the data as it is. */
  function Pack(data: seq<Byte>, key: Option<string>): (r: seq<Byte>)
    requires key.None? || key.value == ""
    ensures |r| == 4 + |data| && r[..4] == Magic && r[4..] == data
  {
    Magic + data
  }

  /**
   * `Unpack` without a key: the first four bytes read must be the magic
   * (a shorter input leaves zeros in the buffer, so it fails too); the rest
   * is copied.
   */
  function Unpack(data: seq<Byte>, key: Option<string>): (r: Result<seq<Byte>, Thrown>)
    requires key.None? || key.value == ""
    ensures r.Ok? <==> |data| >= 4 && data[..4] == Magic
    ensures r.Ok? ==> r.value == data[4..]
    ensures r.Err? ==> r.error == Raise(IllegalArgument, "Initial bytes from input do not match EXDP_MAGIC.")
  {
    var head := ExmyVars.Take(data, 4);
    assert |data| < 4 ==> head[3] == 0;
    if head != Magic then Err(Raise(IllegalArgument, "Initial bytes from input do not match EXDP_MAGIC."))
    else Ok(ExmyVars.Drop(data, 4))
  }

  /** `Unpack(Pack(d, key), key) == d` without a key. */
  lemma PackUnpack(data: seq<Byte>, key: Option<string>)
    requires key.None? || key.value == ""
    ensures Pack(data, key)[..4] == Magic
    ensures Unpack(Pack(data, key), key) == Ok(data)
  {
    var p := Pack(data, key);
    assert p[..4] == Magic && p[4..] == data;
  }
}

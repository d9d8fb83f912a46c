/**
 * The variables file written by `savevars` and read by `loadvars` in
 * `EXMY.Handle`: for each file variable, a length byte, the name in
 * US-ASCII, a length byte and the value in US-ASCII. Lengths are cast to
 * `byte`, so a length of 128 or more is written as a negative byte, and the
 * reader treats every negative length byte as the end of the data.
 */
module ExmyVars {
  import opened Wrappers
  import opened Jvm

  type Vars = map<string, string>

  /** `String.getBytes(US_ASCII)`: characters outside ASCII become `?`. */
  function Ascii(s: string): (b: seq<Byte>)
    ensures |b| == |s|
    ensures forall i :: 0 <= i < |s| ==> b[i] == if s[i] as int < 128 then s[i] as int else '?' as int
  {
    if s == [] then [] else [if s[0] as int < 128 then s[0] as int else '?' as int] + Ascii(s[1..])
  }

  /** `new String(bytes, US_ASCII)`: a negative byte decodes to U+FFFD. */
  function FromAscii(b: seq<Byte>): (s: string)
    ensures |s| == |b|
  {
    if b == [] then [] else [if b[0] >= 0 then b[0] as char else 0xFFFD as char] + FromAscii(b[1..])
  }

  predicate IsAscii(s: string)
  {
    forall i :: 0 <= i < |s| ==> s[i] as int < 128
  }

  lemma {:induction false} AsciiRoundTrip(s: string)
    requires IsAscii(s)
    ensures FromAscii(Ascii(s)) == s
  {
    if s != [] {
      assert Ascii(s)[1..] == Ascii(s[1..]);
      AsciiRoundTrip(s[1..]);
    }
  }

  /** The bytes `savevars` writes for one entry. */
  function Entry(key: string, value: string): seq<Byte>
  {
    [ToByte(|key|)] + Ascii(key) + [ToByte(|value|)] + Ascii(value)
  }

  /** The whole file, for the entries in the order the map iterates them. */
  function Encode(keys: seq<string>, vars: Vars): seq<Byte>
  {
    if keys == [] then []
    else (if keys[0] in vars then Entry(keys[0], vars[keys[0]]) else []) + Encode(keys[1..], vars)
  }

  /** `InputStream.read(byte[n])` near the end of the data: what is there, then zeros. */
  function Take(d: seq<Byte>, n: nat): (r: seq<Byte>)
    ensures |r| == n
    ensures n <= |d| ==> r == d[..n]
  {
    if n <= |d| then d[..n] else d + seq(n - |d|, _ => 0)
  }

  /** The data left after reading up to `n` bytes. */
  function Drop(d: seq<Byte>, n: nat): seq<Byte>
  {
    if n <= |d| then d[n..] else []
  }

  /** The exception `loadvars` reports when the data ends before a value length or a value length is negative. */
  function NegativeLength(): Thrown
  {
    Thrown(NegativeArraySize, None)
  }

  datatype Loaded = Loaded(vars: Vars, error: Option<Thrown>)

  /**
   * The `loadvars` loop over the remaining data `d`: read a length byte;
   * stop when it is negative or the data is exhausted (`read()` gives -1);
   * otherwise read the name, then a value length (`new byte[-1]` when the
   * data has ended, or for a negative length, throws), then the value, and
   * put the entry.
   */
  function LoadFrom(d: seq<Byte>, vars: Vars): (r: Loaded)
    decreases |d|
  {
    if d == [] || d[0] < 0 then Loaded(vars, None)
    else
      var rest := d[1..];
      var key := Take(rest, d[0]);
      var afterKey := Drop(rest, d[0]);
      if afterKey == [] || afterKey[0] < 0 then Loaded(vars, Some(NegativeLength()))
      else
        var value := Take(afterKey[1..], afterKey[0]);
        LoadFrom(Drop(afterKey[1..], afterKey[0]), vars[FromAscii(key) := FromAscii(value)])
  }

  /** The `savevars` loop: the file's new contents. */
  method Save(keys: seq<string>, vars: Vars) returns (out: seq<Byte>)
    ensures out == Encode(keys, vars)
  {
    out := [];
    var i := 0;
    while i < |keys|
      invariant 0 <= i <= |keys|
      invariant out + Encode(keys[i..], vars) == Encode(keys, vars)
    {
      var key := keys[i];
      ghost var before := out;
      ghost var piece := if key in vars then Entry(key, vars[key]) else [];
      EncodeStep(keys, i, vars);
      if key in vars {
        var value := vars[key];
        out := out + [ToByte(|key|)];
        out := out + Ascii(key);
        out := out + [ToByte(|value|)];
        out := out + Ascii(value);
        assert out == before + piece;
      }
      Assoc(before, piece, Encode(keys[i + 1..], vars));
      i := i + 1;
    }
    assert keys[i..] == [];
  }

  /** The entries from key `i` on: that key's entry, if it is a variable, then the rest. */
  lemma EncodeStep(keys: seq<string>, i: nat, vars: Vars)
    requires i < |keys|
    ensures Encode(keys[i..], vars) == (if keys[i] in vars then Entry(keys[i], vars[keys[i]]) else []) + Encode(keys[i + 1..], vars)
  {
    assert keys[i..][0] == keys[i] && keys[i..][1..] == keys[i + 1..];
  }

  lemma Assoc(a: seq<Byte>, b: seq<Byte>, c: seq<Byte>)
    ensures a + b + c == a + (b + c)
  {
  }

  /**
   * `(byte) read()`: the next byte, or -1 at the end of the data (which a
   * byte 0xFF also reads as).
   */
  function ReadByte(stream: seq<Byte>): Byte
  {
    if stream == [] then -1 else stream[0]
  }

  /**
   * One entry of `LoadFrom`, in the terms of the reading loop: after the
   * length byte `x`, the name is the next `x` bytes; then a length byte that
   * reads as negative is an error, and otherwise the value follows it.
   */
  lemma LoadUnfold(x: Byte, s: seq<Byte>, vars: Vars)
    requires x >= 0
    ensures var a := Drop(s, x);
      LoadFrom([x] + s, vars) ==
        if ReadByte(a) < 0 then Loaded(vars, Some(NegativeLength()))
        else LoadFrom(Drop(Drop(a, 1), ReadByte(a)), vars[FromAscii(Take(s, x)) := FromAscii(Take(Drop(a, 1), ReadByte(a)))])
  {
    assert ([x] + s)[1..] == s;
  }

  /** The stream after reading one byte, when that byte is not the end marker. */
  lemma ReadStep(s: seq<Byte>, vars: Vars)
    ensures ReadByte(s) > -1 ==> [ReadByte(s)] + Drop(s, 1) == s
    ensures ReadByte(s) <= -1 ==> LoadFrom(s, vars) == Loaded(vars, None)
  {
    if s != [] {
      assert [s[0]] + s[1..] == s;
    }
  }

  /** The `loadvars` loop, reading the stream and putting entries into `vars`. */
  method Load(data: seq<Byte>, vars: Vars) returns (r: Loaded)
    ensures r == LoadFrom(data, vars)
  {
    ghost var target := LoadFrom(data, vars);
    var fileVars := vars;
    var stream := data;
    var x := ReadByte(stream);
    ReadStep(stream, fileVars);
    stream := Drop(stream, 1);
    while x > -1
      invariant x > -1 ==> LoadFrom([x] + stream, fileVars) == target
      invariant x <= -1 ==> Loaded(fileVars, None) == target
      decreases |stream|
    {
      LoadUnfold(x, stream, fileVars);
      var key := Take(stream, x);
      stream := Drop(stream, x);
      var len := ReadByte(stream);
      stream := Drop(stream, 1);
      if len < 0 {
        return Loaded(fileVars, Some(NegativeLength()));
      }
      var value := Take(stream, len);
      stream := Drop(stream, len);
      fileVars := fileVars[FromAscii(key) := FromAscii(value)];
      x := ReadByte(stream);
      ReadStep(stream, fileVars);
      stream := Drop(stream, 1);
    }
    return Loaded(fileVars, None);
  }

  // ------------------------------------------------------------ properties

  /** An entry that fits the format: an ASCII name and value of at most 127 characters. */
  predicate Storable(key: string, value: string)
  {
    IsAscii(key) && IsAscii(value) && |key| < 128 && |value| < 128
  }

  /** Reading a storable entry puts exactly that entry and continues after it. */
  lemma LoadEntry(key: string, value: string, rest: seq<Byte>, vars: Vars)
    requires Storable(key, value)
    ensures LoadFrom(Entry(key, value) + rest, vars) == LoadFrom(rest, vars[key := value])
  {
    var k, v := Ascii(key), Ascii(value);
    var a := [|value| as Byte] + (v + rest);
    var s := k + a;
    assert Entry(key, value) + rest == [|key| as Byte] + s;
    LoadUnfold(|key|, s, vars);
    assert Take(s, |key|) == k && Drop(s, |key|) == a;
    assert ReadByte(a) == |value| && Drop(a, 1) == v + rest;
    assert Take(v + rest, |value|) == v && Drop(v + rest, |value|) == rest;
    AsciiRoundTrip(key);
    AsciiRoundTrip(value);
  }

  /** A name of 128 to 255 characters is written with a negative length byte: reading stops there, silently. */
  lemma LongNameEndsLoad(key: string, value: string, rest: seq<Byte>, vars: Vars)
    requires 128 <= |key| < 256
    ensures LoadFrom(Entry(key, value) + rest, vars) == Loaded(vars, None)
  {
    assert (Entry(key, value) + rest)[0] == |key| - 256;
  }

  /** A value of 128 to 255 characters makes reading fail after the earlier entries were put. */
  lemma LongValueFailsLoad(key: string, value: string, rest: seq<Byte>, vars: Vars)
    requires IsAscii(key) && |key| < 128 && 128 <= |value| < 256
    ensures LoadFrom(Entry(key, value) + rest, vars) == Loaded(vars, Some(NegativeLength()))
  {
    var d := Entry(key, value) + rest;
    var k := Ascii(key);
    assert d == [|key|] + (k + ([|value| - 256] + (Ascii(value) + rest)));
    assert d[1..] == k + ([|value| - 256] + (Ascii(value) + rest));
    assert Drop(d[1..], |key|) == [|value| - 256] + (Ascii(value) + rest);
  }

  /** The map after putting, in order, the entries of `vars` listed in `keys`. */
  function PutAll(base: Vars, keys: seq<string>, vars: Vars): Vars
    decreases |keys|
  {
    if keys == [] then base
    else PutAll(if keys[0] in vars then base[keys[0] := vars[keys[0]]] else base, keys[1..], vars)
  }

  /** Loading what was saved puts every saved entry back, in the order written. */
  lemma {:induction false} LoadEncoded(keys: seq<string>, vars: Vars, base: Vars)
    requires forall k :: k in vars ==> Storable(k, vars[k])
    ensures LoadFrom(Encode(keys, vars), base) == Loaded(PutAll(base, keys, vars), None)
    decreases |keys|
  {
    if keys != [] {
      var rest := Encode(keys[1..], vars);
      if keys[0] in vars {
        LoadEntry(keys[0], vars[keys[0]], rest, base);
        LoadEncoded(keys[1..], vars, base[keys[0] := vars[keys[0]]]);
      } else {
        assert Encode(keys, vars) == rest;
        LoadEncoded(keys[1..], vars, base);
      }
    }
  }

  /** Putting every key of `vars`, in any order, adds `vars` to the base map. */
  lemma {:induction false} PutAllKeys(base: Vars, keys: seq<string>, vars: Vars)
    ensures PutAll(base, keys, vars) == base + map k | k in vars && k in keys :: vars[k]
    decreases |keys|
  {
    if keys != [] {
      var b := if keys[0] in vars then base[keys[0] := vars[keys[0]]] else base;
      PutAllKeys(b, keys[1..], vars);
      var tail := map k | k in vars && k in keys[1..] :: vars[k];
      var all := map k | k in vars && k in keys :: vars[k];
      assert forall k :: k in keys <==> k == keys[0] || k in keys[1..];
      if keys[0] in vars {
        var k0 := keys[0];
        assert all == tail[k0 := vars[k0]];
        assert forall k :: k in b + tail ==> (b + tail)[k] == (base + all)[k];
        assert (b + tail).Keys == (base + all).Keys;
      } else {
        assert all == tail;
      }
    }
  }

  /**
   * Save then load: a file holding every variable once, each storable,
   * reads back as the same variables merged into what was loaded before.
   */
  lemma SaveLoadRoundTrip(keys: seq<string>, vars: Vars, base: Vars)
    requires forall k :: k in vars ==> Storable(k, vars[k])
    requires forall k :: k in vars <==> k in keys
    ensures LoadFrom(Encode(keys, vars), base) == Loaded(base + vars, None)
  {
    LoadEncoded(keys, vars, base);
    PutAllKeys(base, keys, vars);
    assert (map k | k in vars && k in keys :: vars[k]) == vars;
  }
}

/** The scenarios of `ioTest`: integers written with each of the writer's
    three integer encodings and read back in write order, the exact sizes,
    the exhausted reader, the var-int of five continuation bytes, and the
    UTF-8 strings whose sizes follow their code units. */
module IoTest {
  import opened Primitives
  import Codec
  import Utf8
  import Io

  /** The values ioTest writes with each integer encoding, in this order. */
  const Samples: seq<int32> := [0, 21, 25658, -13, -344554, 2147483647, -2147483648]

  /** `writeInt`, `writeVarInt` and `writeZigZagInt`. */
  datatype IntCodec = Fixed | Var | ZigZag

  function EncodeWith(c: IntCodec, v: int32): seq<byte> {
    match c
    case Fixed => Codec.EncodeInt(v)
    case Var => Codec.EncodeVarInt(v)
    case ZigZag => Codec.EncodeZigZagInt(v)
  }

  /** `readInt`, `readVarInt` and `readZigZagInt` at pos. */
  function DecodeWith(c: IntCodec, s: seq<byte>, pos: nat): Result<(int32, nat)> {
    match c
    case Fixed => Codec.ReadIntAt(s, pos)
    case Var => Codec.DecodeVarInt(s, pos)
    case ZigZag => Codec.DecodeZigZagInt(s, pos)
  }

  /** Each reader method reads back what its writer method wrote. */
  lemma WithRoundTrip(c: IntCodec, v: int32, s: seq<byte>, pos: nat) returns (end: nat)
    requires At(s, pos, EncodeWith(c, v))
    ensures end == pos + |EncodeWith(c, v)|
    ensures DecodeWith(c, s, pos) == Success((v, end))
  {
    end := pos + |EncodeWith(c, v)|;
    match c
    case Fixed => Codec.ReadIntRoundTrip(v, s, pos);
    case Var => Codec.VarIntRoundTrip(v, s, pos);
    case ZigZag => Codec.ZigZagRoundTrip(v, s, pos);
  }

  /** The values written one after the other. */
  function EncodeAll(c: IntCodec, vs: seq<int32>): seq<byte> {
    if vs == [] then [] else EncodeWith(c, vs[0]) + EncodeAll(c, vs[1..])
  }

  lemma EncodeAllStep(c: IntCodec, vs: seq<int32>, k: nat)
    requires k < |vs|
    ensures EncodeAll(c, vs[k..]) == EncodeWith(c, vs[k]) + EncodeAll(c, vs[k + 1..])
  {
    assert vs[k..][1..] == vs[k + 1..];
  }

  /** The writer method matching c. */
  method WriteWith(w: Io.Writer, c: IntCodec, v: int32)
    requires w.Valid()
    modifies w, w.buffer
    ensures w.Valid() && w.Written() == old(w.Written()) + EncodeWith(c, v)
    ensures w.buffer == old(w.buffer) || fresh(w.buffer)
  {
    match c {
      case Fixed => w.WriteInt(v);
      case Var => w.WriteVarInt(v);
      case ZigZag => w.WriteZigZagInt(v);
    }
  }

  /** The values one after the other with the writer method matching c. */
  method WriteAll(w: Io.Writer, c: IntCodec, vs: seq<int32>)
    requires w.Valid()
    modifies w, w.buffer
    ensures w.Valid() && w.Written() == old(w.Written()) + EncodeAll(c, vs)
    ensures w.buffer == old(w.buffer) || fresh(w.buffer)
  {
    assert vs[0..] == vs;
    for i := 0 to |vs|
      invariant w.Valid() && (w.buffer == old(w.buffer) || fresh(w.buffer))
      invariant old(w.Written()) + EncodeAll(c, vs) == w.Written() + EncodeAll(c, vs[i..])
    {
      EncodeAllStep(c, vs, i);
      AppendAssoc(w.Written(), EncodeWith(c, vs[i]), EncodeAll(c, vs[i + 1..]));
      WriteWith(w, c, vs[i]);
    }
    assert w.Written() + [] == w.Written();
  }

  /** The reader method matching c. */
  method ReadWith(r: Io.Reader, c: IntCodec) returns (x: Result<int32>)
    requires r.Valid()
    modifies r
    ensures r.Valid() && x == ValueOf(DecodeWith(c, r.data, old(r.position)))
    ensures r.position == EndOf(DecodeWith(c, r.data, old(r.position)), old(r.position))
  {
    match c {
      case Fixed => x := r.ReadInt();
      case Var => x := r.ReadVarInt();
      case ZigZag => x := r.ReadZigZagInt();
    }
  }

  /** The next of the values written from pos on reads back, and the rest
      follow it. */
  lemma NextRoundTrip(c: IntCodec, vs: seq<int32>, k: nat, s: seq<byte>, pos: nat) returns (end: nat)
    requires k < |vs| && At(s, pos, EncodeAll(c, vs[k..]))
    ensures DecodeWith(c, s, pos) == Success((vs[k], end))
    ensures At(s, end, EncodeAll(c, vs[k + 1..]))
    ensures pos + |EncodeAll(c, vs[k..])| == end + |EncodeAll(c, vs[k + 1..])|
  {
    EncodeAllStep(c, vs, k);
    AtAppend(s, pos, EncodeWith(c, vs[k]), EncodeAll(c, vs[k + 1..]));
    end := WithRoundTrip(c, vs[k], s, pos);
  }

  /** Reads back, with the reader method matching c, values that were
      written there with the writer method matching c: each read returns the
      value written, and the cursor ends right after the last one. */
  method ReadBack(r: Io.Reader, c: IntCodec, vs: seq<int32>) returns (res: Result<seq<int32>>)
    requires r.Valid() && At(r.data, r.position, EncodeAll(c, vs))
    modifies r
    ensures r.Valid() && res == Success(vs)
    ensures r.position == old(r.position) + |EncodeAll(c, vs)|
  {
    var values: seq<int32> := [];
    assert vs[0..] == vs;
    for k := 0 to |vs|
      invariant r.Valid() && values == vs[..k]
      invariant At(r.data, r.position, EncodeAll(c, vs[k..]))
      invariant old(r.position) + |EncodeAll(c, vs)| == r.position + |EncodeAll(c, vs[k..])|
    {
      ghost var end := NextRoundTrip(c, vs, k, r.data, r.position);
      var x := ReadWith(r, c);
      values := values + [x.value];
    }
    assert vs[..|vs|] == vs;
    res := Success(values);
  }

  // The sizes ioTest adds up: four bytes per fixed integer, and per var-int
  // one byte for each started group of seven bits.

  lemma FixedSampleSize()
    ensures |EncodeAll(Fixed, Samples)| == 28
  {
  }

  lemma VarIntSampleSize()
    ensures |EncodeAll(Var, Samples)| == 25
  {
    SampleLengths(Var, Samples, [1, 1, 3, 5, 5, 5, 5]);
  }

  lemma ZigZagSampleSize()
    ensures |EncodeAll(ZigZag, Samples)| == 19
  {
    SampleLengths(ZigZag, Samples, [1, 1, 3, 1, 3, 5, 5]);
  }

  /** The size of a list of encodings, from the sizes of its elements. */
  lemma {:induction false} SampleLengths(c: IntCodec, vs: seq<int32>, sizes: seq<nat>)
    requires |sizes| == |vs|
    requires forall k | 0 <= k < |vs| :: |EncodeWith(c, vs[k])| == sizes[k]
    ensures |EncodeAll(c, vs)| == Sum(sizes)
  {
    if vs != [] {
      SampleLengths(c, vs[1..], sizes[1..]);
    }
  }

  function Sum(sizes: seq<nat>): nat {
    if sizes == [] then 0 else sizes[0] + Sum(sizes[1..])
  }

  /** With the samples of ioTest the writer holds 74 bytes. */
  lemma IoScenarioSize()
    ensures 2 + |EncodeAll(Fixed, Samples)| + |EncodeAll(Var, Samples)| + |EncodeAll(ZigZag, Samples)| == 74
  {
    FixedSampleSize();
    VarIntSampleSize();
    ZigZagSampleSize();
  }

  /** `ioTest`: two bytes, then the values as fixed, var- and zig-zag
      integers into a writer of capacity 1; a reader over the written bytes
      is not empty, gives every value back in order, is empty afterwards,
      and one more `readByte` fails. */
  method IoScenario(vs: seq<int32>) returns (size: nat, before: bool, readBack: seq<int>, after: bool, past: Result<byte>)
    ensures size == 2 + |EncodeAll(Fixed, vs)| + |EncodeAll(Var, vs)| + |EncodeAll(ZigZag, vs)|
    ensures !before && after
    ensures readBack == [123, 210] + vs + vs + vs
    ensures past == Failure(OutOfData)
  {
    var bytes := WriteSamples(vs);
    size := |bytes|;
    before, readBack, after, past := ReadSamples(bytes, vs);
  }

  /** The writing half of ioTest. */
  method WriteSamples(vs: seq<int32>) returns (bytes: seq<byte>)
    ensures bytes == [123, 210] + EncodeAll(Fixed, vs) + EncodeAll(Var, vs) + EncodeAll(ZigZag, vs)
  {
    var w := new Io.Writer(1);
    w.WriteByte(123);
    w.WriteByte(210);
    assert w.Written() == [123, 210];
    WriteAll(w, Fixed, vs);
    WriteAll(w, Var, vs);
    WriteAll(w, ZigZag, vs);
    bytes := w.GetArray();
  }

  /** The reading half of ioTest, over the bytes the writing half wrote. */
  method ReadSamples(bytes: seq<byte>, vs: seq<int32>) returns (before: bool, readBack: seq<int>, after: bool, past: Result<byte>)
    requires bytes == [123, 210] + EncodeAll(Fixed, vs) + EncodeAll(Var, vs) + EncodeAll(ZigZag, vs)
    ensures !before && after
    ensures readBack == [123, 210] + vs + vs + vs
    ensures past == Failure(OutOfData)
  {
    ghost var fixedBytes, varBytes, zigZagBytes := EncodeAll(Fixed, vs), EncodeAll(Var, vs), EncodeAll(ZigZag, vs);
    AtFour(bytes, [123, 210], fixedBytes, varBytes, zigZagBytes);
    ghost var p1, p2 := 2 + |fixedBytes|, 2 + |fixedBytes| + |varBytes|;
    assert At(bytes, 2, fixedBytes) && At(bytes, p1, varBytes) && At(bytes, p2, zigZagBytes);

    var r := new Io.Reader(bytes);
    before := r.IsEmpty();
    var b0 := r.ReadByte();
    var b1 := r.ReadByte();
    var fixed := ReadBack(r, Fixed, vs);
    assert r.position == p1;
    var varInts := ReadBack(r, Var, vs);
    assert r.position == p2;
    var zigZag := ReadBack(r, ZigZag, vs);
    after := r.IsEmpty();
    past := r.ReadByte();
    readBack := [b0.value, b1.value] + fixed.value + varInts.value + zigZag.value;
  }

  /** Four blocks written one after the other are found one after the other. */
  lemma AtFour(s: seq<byte>, a: seq<byte>, b: seq<byte>, c: seq<byte>, d: seq<byte>)
    requires s == a + b + c + d
    ensures |s| == |a| + |b| + |c| + |d|
    ensures At(s, 0, a) && At(s, |a|, b) && At(s, |a| + |b|, c) && At(s, |a| + |b| + |c|, d)
    ensures |a| >= 2 ==> s[0] == a[0] && s[1] == a[1]
  {
    assert At(s, 0, (a + b) + c + d);
    AtSplit(s, 0, a + b, c, d);
    AtAppend(s, 0, a, b);
  }

  /** Five bytes 0x80 and nothing after them: `readVarInt` fails, since the
      fifth byte still announces a continuation. */
  method MalformedVarIntScenario() returns (res: Result<int32>)
    ensures res == Failure(MalformedVarInt)
  {
    var w := new Io.Writer(100);
    w.WriteByte(128);
    w.WriteByte(128);
    w.WriteByte(128);
    w.WriteByte(128);
    w.WriteByte(128);
    var bytes := w.GetArray();
    assert bytes == [128, 128, 128, 128, 128];
    FiveContinuations();
    var r := new Io.Reader(bytes);
    res := r.ReadVarInt();
  }

  /** Five continuation bytes are a malformed var-int, not a lack of data. */
  lemma FiveContinuations()
    ensures Codec.DecodeVarInt([128, 128, 128, 128, 128], 0) == Failure(MalformedVarInt)
  {
    var s: seq<byte> := [128, 128, 128, 128, 128];
    assert forall i | 0 <= i < Codec.MaxVarIntBytes :: s[i] >= Codec.Continuation;
    Codec.VarIntFailure(s, 0);
  }

  /** `utf8(bytes, value)`: the writer holds as many bytes as the code units
      of the string take, `readUtf8` of exactly that many gives the string
      back, and the reader is then empty. */
  method Utf8Scenario(text: seq<Utf8.CodeUnit>) returns (size: nat, back: Result<seq<Utf8.CodeUnit>>, empty: bool)
    ensures size == Utf8.EncodedLength(text)
    ensures back == Success(text) && empty
  {
    var w := new Io.Writer(100);
    w.WriteUtf8(text);
    var bytes := w.GetArray();
    size := |bytes|;
    Utf8.EncodeLength(text);
    assert At(bytes, 0, Utf8.Encode(text));
    Utf8.ReadRoundTrip(text, bytes, 0);
    var r := new Io.Reader(bytes);
    back := r.ReadUtf8(size);
    empty := r.IsEmpty();
  }

  /** The strings of ioTest, each a code unit between `>` and `<`: one
      byte up to U+007F, two up to U+07FF, three up to U+FFFF. */
  lemma Utf8Sizes()
    ensures Utf8.EncodedLength([0x3E, 0x3C]) == 2
    ensures Utf8.EncodedLength([0x3E, 0x0000, 0x3C]) == 3
    ensures Utf8.EncodedLength([0x3E, 0x0001, 0x3C]) == 3
    ensures Utf8.EncodedLength([0x3E, 0x0012, 0x3C]) == 3
    ensures Utf8.EncodedLength([0x3E, 0x007F, 0x3C]) == 3
    ensures Utf8.EncodedLength([0x3E, 0x0080, 0x3C]) == 4
    ensures Utf8.EncodedLength([0x3E, 0x0234, 0x3C]) == 4
    ensures Utf8.EncodedLength([0x3E, 0x07FF, 0x3C]) == 4
    ensures Utf8.EncodedLength([0x3E, 0x0800, 0x3C]) == 5
    ensures Utf8.EncodedLength([0x3E, 0x4321, 0x3C]) == 5
    ensures Utf8.EncodedLength([0x3E, 0xFFFF, 0x3C]) == 5
  {
  }
}

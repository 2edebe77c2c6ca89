/** The primitive wire encodings written by `yass.Writer` and read back by
    `yass.Reader`: the fixed 4-byte integer, the base-128 var-int and the
    zig-zag var-int. Each encoding is a function from a value to bytes; each
    decoding reads a buffer from a cursor position and gives the value and
    the position after it, or the error the reader throws. */
module Codec {
  import opened Primitives

  /** `readByte`: the byte under the cursor, or out-of-data past the end. */
  function ReadByteAt(s: seq<byte>, pos: nat): (r: Result<(byte, nat)>)
    ensures r.Success? <==> pos < |s|
    ensures r.Success? ==> r.value == (s[pos], pos + 1)
    ensures r.Failure? ==> r.error == OutOfData
  {
    if pos >= |s| then Failure(OutOfData) else Success((s[pos], pos + 1))
  }

  /** `readBytes`: count raw bytes from pos on, and the position after them. */
  function ReadBytesAt(s: seq<byte>, pos: nat, count: nat): (r: Result<(seq<byte>, nat)>)
    ensures r.Success? <==> pos + count <= |s|
    ensures r.Success? ==> r.value == (s[pos..pos + count], pos + count)
    ensures r.Failure? ==> r.error == OutOfData
  {
    if pos + count > |s| then Failure(OutOfData) else Success((s[pos..pos + count], pos + count))
  }

  // ---------------------------------------------------------------------------
  // Fixed 4-byte integer: two's complement, big-endian (DataView's default).

  function EncodeInt(v: int32): (b: seq<byte>)
    ensures |b| == 4
  {
    var u := ToUnsigned(v);
    var q1 := u / 0x100;
    var q2 := q1 / 0x100;
    assert q2 < 0x1_0000;
    [q2 / 0x100, q2 % 0x100, q1 % 0x100, u % 0x100]
  }

  /** The four bytes read as one unsigned big-endian number. */
  function BigEndian(b: seq<byte>): (u: uint32)
    requires |b| == 4
  {
    ((b[0] as int * 0x100 + b[1] as int) * 0x100 + b[2] as int) * 0x100 + b[3] as int
  }

  function DecodeInt(b: seq<byte>): int32
    requires |b| == 4
  {
    ToSigned(BigEndian(b))
  }

  /** Reads four bytes as `readInt` does, failing when fewer remain. */
  function ReadIntAt(s: seq<byte>, pos: nat): (r: Result<(int32, nat)>)
    ensures r.Success? <==> pos + 4 <= |s|
    ensures r.Success? ==> r.value == (DecodeInt(s[pos..pos + 4]), pos + 4)
    ensures r.Failure? ==> r.error == OutOfData
  {
    if pos + 4 > |s| then Failure(OutOfData) else Success((DecodeInt(s[pos..pos + 4]), pos + 4))
  }

  /** `readInt` returns what `writeInt` wrote, for every 32-bit value. */
  lemma IntRoundTrip(v: int32)
    ensures DecodeInt(EncodeInt(v)) == v
  {
    var u := ToUnsigned(v);
    var q1 := u / 0x100;
    var q2 := q1 / 0x100;
    assert u == q1 * 0x100 + u % 0x100;
    assert q1 == q2 * 0x100 + q1 % 0x100;
    assert q2 == (q2 / 0x100) * 0x100 + q2 % 0x100;
    assert BigEndian(EncodeInt(v)) == u;
  }

  /** Every 4-byte block is the encoding of exactly one integer, so `writeInt`
      is a bijection between 32-bit values and 4-byte blocks. */
  lemma IntEncodingOnto(b: seq<byte>)
    requires |b| == 4
    ensures EncodeInt(DecodeInt(b)) == b
  {
    var b0: int, b1: int, b2: int, b3: int := b[0], b[1], b[2], b[3];
    var q2 := b0 * 0x100 + b1;
    var q1 := q2 * 0x100 + b2;
    var u := q1 * 0x100 + b3;
    assert u == BigEndian(b) == ToUnsigned(DecodeInt(b));
    DivModUnique(u, 0x100, q1, b3);
    DivModUnique(q1, 0x100, q2, b2);
    DivModUnique(q2, 0x100, b0, b1);
  }

  /** Wherever `writeInt` put its four bytes, `readInt` there reads the value back. */
  lemma ReadIntRoundTrip(v: int32, s: seq<byte>, pos: nat)
    requires At(s, pos, EncodeInt(v))
    ensures ReadIntAt(s, pos) == Success((v, pos + 4))
  {
    AtSlice(s, pos, EncodeInt(v));
    IntRoundTrip(v);
  }

  // ---------------------------------------------------------------------------
  // Base-128 var-int: seven data bits per byte, least significant group first,
  // the continuation bit 0x80 set on every byte but the last. `writeVarInt`
  // encodes the 32 bits of its argument read as unsigned.

  const Continuation: byte := 0x80
  const MaxVarIntBytes: nat := 5

  /** d shifted left by 7k bits: `d << (7 * k)` without the 32-bit truncation. */
  function Shift7(d: nat, k: nat): (r: nat)
    requires k <= MaxVarIntBytes
  {
    if k == 0 then d
    else if k == 1 then d * 0x80
    else if k == 2 then d * 0x4000
    else if k == 3 then d * 0x20_0000
    else if k == 4 then d * 0x1000_0000
    else d * 0x8_0000_0000
  }

  /** Shifting distributes over one more group of seven bits. */
  lemma Shift7Step(d: nat, x: nat, k: nat)
    requires k < MaxVarIntBytes
    ensures Shift7(d + 0x80 * x, k) == Shift7(d, k) + Shift7(x, k + 1)
  {
  }

  /** The byte shape of every var-int: the continuation bit on every byte
      but the last, and not on the last. */
  predicate Terminated(b: seq<byte>) {
    && |b| >= 1
    && b[|b| - 1] < Continuation
    && forall k | 0 <= k < |b| - 1 :: b[k] >= Continuation
  }

  function EncodeVarUnsigned(u: nat): (b: seq<byte>)
    ensures |b| >= 1
    ensures Terminated(b)
  {
    if u < 0x80 then [u] else [u % 0x80 + Continuation] + EncodeVarUnsigned(u / 0x80)
  }

  function EncodeVarInt(v: int32): (b: seq<byte>)
    ensures Terminated(b)
  {
    EncodeVarUnsigned(ToUnsigned(v))
  }

  /** The number of bytes a var-int needs: one per started group of seven bits. */
  function VarIntLength(u: nat): nat {
    if u < 0x80 then 1
    else if u < 0x4000 then 2
    else if u < 0x20_0000 then 3
    else if u < 0x1000_0000 then 4
    else if u < 0x8_0000_0000 then 5
    else 6
  }

  lemma {:induction false} VarUnsignedLength(u: nat)
    requires u < 0x8_0000_0000
    ensures |EncodeVarUnsigned(u)| == VarIntLength(u)
  {
    if u >= 0x80 {
      VarUnsignedLength(u / 0x80);
    }
  }

  /** The encoded size follows the value's magnitude; in particular a negative
      value, whose sign-extended high bits are set, always takes five bytes. */
  lemma VarIntSize(v: int32)
    ensures 1 <= |EncodeVarInt(v)| <= MaxVarIntBytes
    ensures |EncodeVarInt(v)| == VarIntLength(ToUnsigned(v))
    ensures v < 0 ==> |EncodeVarInt(v)| == 5
    ensures 0 <= v < 0x80 <==> |EncodeVarInt(v)| == 1
  {
    VarUnsignedLength(ToUnsigned(v));
  }

  /** The groups of a var-int from position pos on, when its bytes must end
      before limit: the number they make, low group first, and the position
      after its last byte. A byte at limit is never read: a var-int that has
      not ended by then is malformed. */
  function Groups(s: seq<byte>, pos: nat, limit: nat): (r: Result<(nat, nat)>)
    requires pos <= limit
    ensures r.Success? ==> pos < r.value.1 <= |s| && r.value.1 <= limit
    decreases limit - pos
  {
    if pos == limit then Failure(MalformedVarInt)
    else if pos >= |s| then Failure(OutOfData)
    else if s[pos] < Continuation then Success((s[pos], pos + 1))
    else
      var group :- Groups(s, pos + 1, limit);
      var x, end := group.0, group.1;
      Success((s[pos] - Continuation + 0x80 * x, end))
  }

  /** What the groups from byte k on add to the k groups gathered in acc. */
  function Shifted(r: Result<(nat, nat)>, k: nat, acc: nat): Result<(nat, nat)>
    requires k <= MaxVarIntBytes
  {
    match r
    case Success(x) => Success((acc + Shift7(x.0, k), x.1))
    case Failure(e) => Failure(e)
  }

  /** A byte with the continuation bit moves its seven data bits into the
      accumulator; one without it ends the var-int. */
  lemma GroupsStep(s: seq<byte>, pos: nat, limit: nat, k: nat, acc: nat)
    requires k < MaxVarIntBytes && pos < limit && pos < |s|
    ensures s[pos] >= Continuation ==>
      Shifted(Groups(s, pos, limit), k, acc) == Shifted(Groups(s, pos + 1, limit), k + 1, acc + Shift7(s[pos] % 0x80, k))
    ensures s[pos] < Continuation ==>
      Shifted(Groups(s, pos, limit), k, acc) == Success((acc + Shift7(s[pos], k), pos + 1))
  {
    if s[pos] >= Continuation && Groups(s, pos + 1, limit).Success? {
      var x := Groups(s, pos + 1, limit).value.0;
      assert s[pos] % 0x80 == s[pos] - Continuation;
      Shift7Step(s[pos] % 0x80, x, k);
    }
  }

  /** Before any byte is read the accumulator adds nothing. */
  lemma ShiftedStart(r: Result<(nat, nat)>)
    ensures Shifted(r, 0, 0) == r
  {
  }

  /** `readVarInt` at pos: the value and the position after it. JavaScript's
      `|` and `<<` keep the low 32 bits of the groups, which is the whole
      number modulo 2^32 read as a signed value. */
  function DecodeVarInt(s: seq<byte>, pos: nat): (r: Result<(int32, nat)>)
    ensures r.Success? ==> pos < r.value.1 <= |s| && r.value.1 <= pos + MaxVarIntBytes
  {
    var group :- Groups(s, pos, pos + MaxVarIntBytes);
    var x, end := group.0, group.1;
    Success((ToSigned(x % TwoTo32), end))
  }

  /** How `readVarInt` ends once the k bytes from start to pos gave acc:
      malformed after five, out of data at the end of the input, and the
      accumulated value on a byte without the continuation bit. */
  lemma DecodeFromShifted(s: seq<byte>, start: nat, pos: nat, k: nat, acc: nat)
    requires k <= MaxVarIntBytes && pos == start + k
    requires Groups(s, start, start + MaxVarIntBytes) == Shifted(Groups(s, pos, start + MaxVarIntBytes), k, acc)
    ensures k == MaxVarIntBytes ==> DecodeVarInt(s, start) == Failure(MalformedVarInt)
    ensures k < MaxVarIntBytes && pos >= |s| ==> DecodeVarInt(s, start) == Failure(OutOfData)
    ensures k < MaxVarIntBytes && pos < |s| && s[pos] < Continuation ==>
      DecodeVarInt(s, start) == Success((ToSigned((acc + Shift7(s[pos], k)) % TwoTo32), pos + 1))
  {
  }

  lemma {:induction false} GroupsRoundTrip(u: nat, s: seq<byte>, pos: nat, limit: nat)
    requires VarIntLength(u) <= MaxVarIntBytes && pos + VarIntLength(u) <= limit
    requires At(s, pos, EncodeVarUnsigned(u))
    ensures Groups(s, pos, limit) == Success((u, pos + |EncodeVarUnsigned(u)|))
    decreases u
  {
    AtHead(s, pos, EncodeVarUnsigned(u));
    if u >= 0x80 {
      var b: byte := u % 0x80 + Continuation;
      var tail := EncodeVarUnsigned(u / 0x80);
      assert EncodeVarUnsigned(u) == [b] + tail;
      AtAppend(s, pos, [b], tail);
      GroupsRoundTrip(u / 0x80, s, pos + 1, limit);
    }
  }

  lemma ModSmall(u: uint32)
    ensures VarIntLength(u) <= MaxVarIntBytes
    ensures u % TwoTo32 == u
  {
  }

  /** `readVarInt` returns what `writeVarInt` wrote and stops right after
      its bytes, whatever surrounds them. */
  lemma VarIntRoundTrip(v: int32, s: seq<byte>, pos: nat)
    requires At(s, pos, EncodeVarInt(v))
    ensures DecodeVarInt(s, pos) == Success((v, pos + |EncodeVarInt(v)|))
  {
    var u := ToUnsigned(v);
    ModSmall(u);
    GroupsRoundTrip(u, s, pos, pos + MaxVarIntBytes);
  }

  /** Continuation bytes all the way to limit, and only they, make a
      var-int malformed. */
  lemma {:induction false} GroupsMalformed(s: seq<byte>, pos: nat, limit: nat)
    requires pos <= limit && pos <= |s|
    ensures Groups(s, pos, limit) == Failure(MalformedVarInt)
        <==> limit <= |s| && forall i | pos <= i < limit :: s[i] >= Continuation
    decreases limit - pos
  {
    if pos < limit && pos < |s| && s[pos] >= Continuation {
      GroupsMalformed(s, pos + 1, limit);
    }
  }

  /** The input runs out exactly when it ends before limit and before any
      byte ends the var-int. */
  lemma {:induction false} GroupsOutOfData(s: seq<byte>, pos: nat, limit: nat)
    requires pos <= limit && pos <= |s|
    ensures Groups(s, pos, limit) == Failure(OutOfData)
        <==> |s| < limit && forall i | pos <= i < |s| :: s[i] >= Continuation
    decreases limit - pos
  {
    if pos < limit && pos < |s| && s[pos] >= Continuation {
      GroupsOutOfData(s, pos + 1, limit);
    }
  }

  /** A var-int fails to decode exactly when no byte among the first five ends
      it: with five continuation bytes it is malformed, with fewer the input
      ran out. */
  lemma VarIntFailure(s: seq<byte>, pos: nat)
    ensures DecodeVarInt(s, pos) == Failure(MalformedVarInt)
        <==> pos + MaxVarIntBytes <= |s| && forall i | pos <= i < pos + MaxVarIntBytes :: s[i] >= Continuation
    ensures DecodeVarInt(s, pos) == Failure(OutOfData)
        <==> |s| < pos + MaxVarIntBytes && forall i | pos <= i < |s| :: s[i] >= Continuation
  {
    if pos <= |s| {
      GroupsMalformed(s, pos, pos + MaxVarIntBytes);
      GroupsOutOfData(s, pos, pos + MaxVarIntBytes);
    }
  }

  // ---------------------------------------------------------------------------
  // Zig-zag var-int: `(v << 1) ^ (v >> 31)` interleaves the signed values
  // 0, -1, 1, -2, ... onto 0, 1, 2, 3, ..., and the result goes through
  // `writeVarInt`; `(z >>> 1) ^ -(z & 1)` undoes it.

  function ZigZag(v: int32): (z: uint32) {
    if v >= 0 then 2 * v else -2 * v - 1
  }

  function UnZigZag(z: uint32): (v: int32) {
    if z % 2 == 0 then z / 2 else -(z / 2) - 1
  }

  /** Zig-zag is a bijection between signed and unsigned 32-bit values. */
  lemma ZigZagBijective(v: int32, z: uint32)
    ensures UnZigZag(ZigZag(v)) == v
    ensures ZigZag(UnZigZag(z)) == z
  {
  }

  function EncodeZigZagInt(v: int32): (b: seq<byte>)
    ensures Terminated(b)
  {
    EncodeVarInt(ToSigned(ZigZag(v)))
  }

  function DecodeZigZagInt(s: seq<byte>, pos: nat): (r: Result<(int32, nat)>)
    ensures r.Success? ==> pos < r.value.1 <= |s| && r.value.1 <= pos + MaxVarIntBytes
    ensures r.Success? <==> DecodeVarInt(s, pos).Success?
    ensures r.Success? ==> r.value.1 == DecodeVarInt(s, pos).value.1
    ensures r.Failure? ==> r.error == DecodeVarInt(s, pos).error
  {
    var read :- DecodeVarInt(s, pos);
    var x, end := read.0, read.1;
    Success((UnZigZag(ToUnsigned(x)), end))
  }

  lemma ZigZagRoundTrip(v: int32, s: seq<byte>, pos: nat)
    requires At(s, pos, EncodeZigZagInt(v))
    ensures DecodeZigZagInt(s, pos) == Success((v, pos + |EncodeZigZagInt(v)|))
  {
    var z := ZigZag(v);
    VarIntRoundTrip(ToSigned(z), s, pos);
    assert ToUnsigned(ToSigned(z)) == z;
    ZigZagBijective(v, z);
  }

  /** Small magnitudes stay small: exactly the values in -64..63 take one
      byte, and a negative value down to -2^27 takes fewer bytes than the
      five its raw var-int needs. */
  lemma ZigZagSize(v: int32)
    ensures |EncodeZigZagInt(v)| == VarIntLength(ZigZag(v))
    ensures |EncodeZigZagInt(v)| == 1 <==> -64 <= v < 64
    ensures v < 0 ==> (|EncodeZigZagInt(v)| < |EncodeVarInt(v)| <==> v >= -0x800_0000)
  {
    VarIntSize(ToSigned(ZigZag(v)));
    VarIntSize(v);
  }
}

/** Machine-level values shared by the codec, the serializer and the registry:
    unsigned bytes, 32-bit integers, and the failure-compatible Result type
    that stands for the exceptions the readers throw. */
module Primitives {

  /** An unsigned byte as held by a `Uint8Array`. */
  type byte = b: int | 0 <= b < 0x100

  /** A 32-bit two's-complement integer: what JavaScript's bitwise operators
      produce and what Java's `int` holds. */
  type int32 = i: int | -0x8000_0000 <= i < 0x8000_0000

  /** The same 32 bits read as unsigned (JavaScript's `>>>`). */
  type uint32 = u: int | 0 <= u < 0x1_0000_0000

  const TwoTo32: int := 0x1_0000_0000
  const MaxInt32: int := 0x7FFF_FFFF

  /** Reinterprets the 32 bits of a signed value as unsigned (`v >>> 0`). */
  function ToUnsigned(v: int32): (u: uint32)
    ensures v >= 0 ==> u == v
    ensures v < 0 ==> u == v + TwoTo32
  {
    if v < 0 then v + TwoTo32 else v
  }

  /** Reinterprets 32 unsigned bits as a signed value (`u | 0`). */
  function ToSigned(u: uint32): (v: int32)
    ensures ToUnsigned(v) == u
    ensures u <= MaxInt32 ==> v == u
  {
    if u <= MaxInt32 then u else u - TwoTo32
  }

  /** Reinterpreting is a bijection: signed to unsigned and back is the identity. */
  lemma SignedUnsignedInverse(v: int32)
    ensures ToSigned(ToUnsigned(v)) == v
  {
  }

  /** Quotient and remainder are determined by any decomposition x == q * d + r. */
  lemma DivModUnique(x: int, d: int, q: int, r: int)
    requires d > 0 && 0 <= r < d && x == q * d + r
    ensures x / d == q && x % d == r
  {
    var q', r' := x / d, x % d;
    assert (q - q') * d == r' - r;
    if q - q' >= 1 {
      MulAtLeast(q - q', d);
    } else if q' - q >= 1 {
      MulAtLeast(q' - q, d);
    }
  }

  lemma MulAtLeast(a: int, d: int)
    requires a >= 1 && d > 0
    ensures a * d >= d
  {
  }

  /** A field that may be absent (`undefined` in JavaScript). */
  datatype Option<+T> = None | Some(value: T)

  /** The ways a read can fail. */
  datatype Error =
    | OutOfData            // a read past the end of the buffer
    | MalformedVarInt      // five continuation bytes without a terminating byte
    | MalformedUtf8        // a byte sequence that is not the UTF-8 form of code units
    | UnknownTypeTag(tag: nat)
    | UnknownOrdinal(ordinal: nat)
    | UnknownFieldId(id: nat)

  datatype Result<+T> = Success(value: T) | Failure(error: Error) {
    predicate IsFailure() {
      Failure?
    }

    function PropagateFailure<U>(): Result<U>
      requires Failure?
    {
      Failure(error)
    }

    function Extract(): T
      requires Success?
    {
      value
    }
  }

  /** The value of a read that also reports where the cursor ends up. */
  function ValueOf<T>(r: Result<(T, nat)>): (v: Result<T>)
    ensures v.Success? <==> r.Success?
    ensures r.Success? ==> v == Success(r.value.0)
    ensures r.Failure? ==> v.error == r.error
  {
    match r
    case Success(x) => Success(x.0)
    case Failure(e) => Failure(e)
  }

  /** Where a reader's cursor stands after a read that started at pos: after
      what was read, or still at pos when the read failed. */
  function EndOf<T>(r: Result<(T, nat)>, pos: nat): nat {
    match r
    case Success(x) => x.1
    case Failure(_) => pos
  }

  /** A read that yields a list, with the values already read in front. */
  function Prefixed<T>(done: seq<T>, r: Result<(seq<T>, nat)>): Result<(seq<T>, nat)> {
    match r
    case Success(x) => Success((done + x.0, x.1))
    case Failure(e) => Failure(e)
  }

  lemma PrefixedNothing<T>(r: Result<(seq<T>, nat)>)
    ensures Prefixed([], r) == r
  {
    if r.Success? {
      assert [] + r.value.0 == r.value.0;
    }
  }

  /** Values read in two goes join in reading order. */
  lemma PrefixedTwice<T>(a: seq<T>, b: seq<T>, r: Result<(seq<T>, nat)>)
    ensures Prefixed(a, Prefixed(b, r)) == Prefixed(a + b, r)
  {
    if r.Success? {
      assert a + (b + r.value.0) == a + b + r.value.0;
    }
  }

  lemma AppendAssoc(a: seq<byte>, b: seq<byte>, c: seq<byte>)
    ensures a + b + c == a + (b + c)
  {
  }

  /** The bytes e occur in s from index pos on. */
  predicate At(s: seq<byte>, pos: nat, e: seq<byte>) {
    pos + |e| <= |s| && forall j | 0 <= j < |e| :: s[pos + j] == e[j]
  }

  lemma AtAppend(s: seq<byte>, pos: nat, a: seq<byte>, b: seq<byte>)
    ensures At(s, pos, a + b) <==> At(s, pos, a) && At(s, pos + |a|, b)
  {
    if At(s, pos, a) && At(s, pos + |a|, b) {
      forall j | 0 <= j < |a + b|
        ensures s[pos + j] == (a + b)[j]
      {
        if j >= |a| {
          assert s[pos + |a| + (j - |a|)] == b[j - |a|];
        }
      }
    }
    if At(s, pos, a + b) {
      assert forall j | 0 <= j < |a| :: s[pos + j] == (a + b)[j] == a[j];
      forall j | 0 <= j < |b|
        ensures s[pos + |a| + j] == b[j]
      {
        assert s[pos + (|a| + j)] == (a + b)[|a| + j];
      }
    }
  }

  /** Three blocks written one after the other are found one after the other. */
  lemma AtSplit(s: seq<byte>, pos: nat, a: seq<byte>, b: seq<byte>, c: seq<byte>)
    requires At(s, pos, a + b + c)
    ensures At(s, pos, a) && At(s, pos + |a|, b) && At(s, pos + |a| + |b|, c)
  {
    AtAppend(s, pos, a + b, c);
    AtAppend(s, pos, a, b);
  }

  /** The first byte of a block found at pos is the byte at pos. */
  lemma AtHead(s: seq<byte>, pos: nat, e: seq<byte>)
    requires At(s, pos, e) && |e| > 0
    ensures pos < |s| && s[pos] == e[0]
  {
    assert s[pos + 0] == e[0];
  }

  /** Occurring at pos is the same as the slice from pos being the block. */
  lemma AtSlice(s: seq<byte>, pos: nat, e: seq<byte>)
    requires pos + |e| <= |s|
    ensures At(s, pos, e) <==> s[pos..pos + |e|] == e
  {
  }
}

/** `yass.Writer` and `yass.Reader`: a growable byte buffer that exposes only
    what has been written, and a cursor over an immutable byte block whose
    reads fail instead of running past the end. Every write is proved to
    append exactly the bytes of the corresponding encoding function, and
    every read to return exactly what the corresponding decoding function
    gives for the remaining input. */
module Io {
  import opened Primitives
  import Codec
  import Utf8

  function Max(a: nat, b: nat): nat {
    if a < b then b else a
  }

  class Writer {
    var buffer: array<byte>
    var position: nat

    ghost predicate Valid()
      reads this
    {
      position <= buffer.Length
    }

    /** The written prefix: all that `getArray` ever exposes. */
    ghost function Written(): seq<byte>
      reads this, buffer
      requires Valid()
    {
      buffer[..position]
    }

    constructor (initialCapacity: nat)
      ensures Valid() && fresh(buffer)
      ensures Written() == [] && buffer.Length == initialCapacity
    {
      buffer := new byte[initialCapacity];
      position := 0;
    }

    /** Claims count bytes after the written prefix and returns where they
        start; when they do not fit, the buffer is replaced by one at least
        twice as large that holds the old contents. */
    method Reserve(count: nat) returns (at: nat)
      requires Valid()
      modifies this
      ensures Valid() && at == old(position) && position == at + count
      ensures buffer[..at] == old(Written())
      ensures buffer == old(buffer) || (fresh(buffer) && buffer.Length >= 2 * old(buffer.Length))
      ensures old(position) + count <= old(buffer.Length) ==> buffer == old(buffer)
      ensures old(position) + count > old(buffer.Length) ==> fresh(buffer) && buffer.Length >= 2 * old(buffer.Length)
    {
      at := position;
      if position + count > buffer.Length {
        var grown := new byte[Max(2 * buffer.Length, position + count)];
        forall i | 0 <= i < position {
          grown[i] := buffer[i];
        }
        buffer := grown;
      }
      position := position + count;
    }

    method WriteByte(b: byte)
      requires Valid()
      modifies this, buffer
      ensures Valid() && Written() == old(Written()) + [b]
      ensures buffer == old(buffer) || fresh(buffer)
    {
      var at := Reserve(1);
      buffer[at] := b;
    }

    /** A block of raw bytes, copied as they are. */
    method WriteBytes(bytes: seq<byte>)
      requires Valid()
      modifies this, buffer
      ensures Valid() && Written() == old(Written()) + bytes
      ensures buffer == old(buffer) || fresh(buffer)
    {
      var at := Reserve(|bytes|);
      forall i | 0 <= i < |bytes| {
        buffer[at + i] := bytes[i];
      }
      assert buffer[..position] == buffer[..at] + bytes;
    }

    /** Always four bytes, big-endian two's complement. */
    method WriteInt(v: int32)
      requires Valid()
      modifies this, buffer
      ensures Valid() && Written() == old(Written()) + Codec.EncodeInt(v)
      ensures buffer == old(buffer) || fresh(buffer)
    {
      var bytes := Codec.EncodeInt(v);
      var at := Reserve(4);
      buffer[at] := bytes[0];
      buffer[at + 1] := bytes[1];
      buffer[at + 2] := bytes[2];
      buffer[at + 3] := bytes[3];
      assert buffer[..position] == buffer[..at] + bytes;
    }

    /** Seven bits at a time, low group first, continuation bit on all but the last. */
    method WriteVarInt(v: int32)
      requires Valid()
      modifies this, buffer
      ensures Valid() && Written() == old(Written()) + Codec.EncodeVarInt(v)
      ensures buffer == old(buffer) || fresh(buffer)
    {
      var u: nat := ToUnsigned(v);
      while u >= 0x80
        invariant Valid() && (buffer == old(buffer) || fresh(buffer))
        invariant old(Written()) + Codec.EncodeVarInt(v) == Written() + Codec.EncodeVarUnsigned(u)
      {
        WriteByte(u % 0x80 + Codec.Continuation);
        u := u / 0x80;
      }
      WriteByte(u);
    }

    method WriteZigZagInt(v: int32)
      requires Valid()
      modifies this, buffer
      ensures Valid() && Written() == old(Written()) + Codec.EncodeZigZagInt(v)
      ensures buffer == old(buffer) || fresh(buffer)
    {
      WriteVarInt(ToSigned(Codec.ZigZag(v)));
    }

    /** The one, two or three bytes of a single code unit. */
    method WriteUnit(c: Utf8.CodeUnit)
      requires Valid()
      modifies this, buffer
      ensures Valid() && Written() == old(Written()) + Utf8.EncodeUnit(c)
      ensures buffer == old(buffer) || fresh(buffer)
    {
      if c < 0x80 {
        WriteByte(c);
      } else if c < 0x800 {
        WriteByte(0xC0 + c / 0x40);
        WriteByte(0x80 + c % 0x40);
      } else {
        WriteByte(0xE0 + c / 0x1000);
        WriteByte(0x80 + (c / 0x40) % 0x40);
        WriteByte(0x80 + c % 0x40);
      }
    }

    /** The UTF-8 bytes of each code unit in turn, with no length prefix. */
    method WriteUtf8(text: seq<Utf8.CodeUnit>)
      requires Valid()
      modifies this, buffer
      ensures Valid() && Written() == old(Written()) + Utf8.Encode(text)
      ensures buffer == old(buffer) || fresh(buffer)
    {
      for i := 0 to |text|
        invariant Valid() && (buffer == old(buffer) || fresh(buffer))
        invariant Written() == old(Written()) + Utf8.Encode(text[..i])
      {
        WriteUnit(text[i]);
        assert text[..i + 1] == text[..i] + [text[i]];
        Utf8.EncodeSnoc(text[..i], text[i]);
      }
      assert text[..|text|] == text;
    }

    /** The written bytes only, never the spare capacity. */
    method GetArray() returns (bytes: seq<byte>)
      requires Valid()
      ensures bytes == Written()
    {
      bytes := buffer[..position];
    }
  }

  class Reader {
    const data: seq<byte>
    var position: nat

    ghost predicate Valid()
      reads this
    {
      position <= |data|
    }

    constructor (bytes: seq<byte>)
      ensures Valid() && data == bytes && position == 0
    {
      data := bytes;
      position := 0;
    }

    /** True exactly when every byte has been consumed. */
    method IsEmpty() returns (empty: bool)
      requires Valid()
      ensures empty <==> position == |data|
    {
      empty := position >= |data|;
    }

    method ReadByte() returns (r: Result<byte>)
      requires Valid()
      modifies this
      ensures Valid() && r == ValueOf(Codec.ReadByteAt(data, old(position)))
      ensures position == EndOf(Codec.ReadByteAt(data, old(position)), old(position))
    {
      if position >= |data| {
        r := Failure(OutOfData);
      } else {
        r := Success(data[position]);
        position := position + 1;
      }
    }

    method ReadInt() returns (r: Result<int32>)
      requires Valid()
      modifies this
      ensures Valid() && r == ValueOf(Codec.ReadIntAt(data, old(position)))
      ensures position == EndOf(Codec.ReadIntAt(data, old(position)), old(position))
    {
      if |data| - position < 4 {
        r := Failure(OutOfData);
      } else {
        r := Success(Codec.DecodeInt(data[position..position + 4]));
        position := position + 4;
      }
    }

    /** At most five bytes, low group first; the cursor moves only when a
        byte without the continuation bit ends the var-int, and stays where
        it was when the input runs out or the fifth byte still carries the
        continuation bit. */
    method ReadVarInt() returns (r: Result<int32>)
      requires Valid()
      modifies this
      ensures Valid() && r == ValueOf(Codec.DecodeVarInt(data, old(position)))
      ensures position == EndOf(Codec.DecodeVarInt(data, old(position)), old(position))
    {
      var start := position;
      var p := start;
      var k: nat := 0;
      var acc: nat := 0;
      Codec.ShiftedStart(Codec.Groups(data, start, start + Codec.MaxVarIntBytes));
      while k < Codec.MaxVarIntBytes
        invariant position == start && k <= Codec.MaxVarIntBytes && p == start + k <= |data|
        invariant Codec.Groups(data, start, start + Codec.MaxVarIntBytes) == Codec.Shifted(Codec.Groups(data, p, start + Codec.MaxVarIntBytes), k, acc)
      {
        Codec.DecodeFromShifted(data, start, p, k, acc);
        if p == |data| {
          return Failure(OutOfData);
        }
        var b := data[p];
        if b < Codec.Continuation {
          position := p + 1;
          return Success(ToSigned((acc + Codec.Shift7(b, k)) % TwoTo32));
        }
        Codec.GroupsStep(data, p, start + Codec.MaxVarIntBytes, k, acc);
        acc := acc + Codec.Shift7(b % 0x80, k);
        k := k + 1;
        p := p + 1;
      }
      Codec.DecodeFromShifted(data, start, p, k, acc);
      r := Failure(MalformedVarInt);
    }

    method ReadZigZagInt() returns (r: Result<int32>)
      requires Valid()
      modifies this
      ensures Valid() && r == ValueOf(Codec.DecodeZigZagInt(data, old(position)))
      ensures position == EndOf(Codec.DecodeZigZagInt(data, old(position)), old(position))
    {
      var x := ReadVarInt();
      r := if x.Success? then Success(Codec.UnZigZag(ToUnsigned(x.value))) else Failure(x.error);
    }

    /** The next count bytes as they are. */
    method ReadBytes(count: nat) returns (r: Result<seq<byte>>)
      requires Valid()
      modifies this
      ensures Valid() && r == ValueOf(Codec.ReadBytesAt(data, old(position), count))
      ensures position == EndOf(Codec.ReadBytesAt(data, old(position), count), old(position))
    {
      if |data| - position < count {
        return Failure(OutOfData);
      }
      r := Success(data[position..position + count]);
      position := position + count;
    }

    /** Decodes exactly the next count bytes one code unit at a time; the
        cursor stays put when fewer bytes remain or they are not UTF-8. */
    method ReadUtf8(count: nat) returns (r: Result<seq<Utf8.CodeUnit>>)
      requires Valid()
      modifies this
      ensures Valid() && r == ValueOf(Utf8.ReadFrom(data, old(position), count))
      ensures position == EndOf(Utf8.ReadFrom(data, old(position), count), old(position))
    {
      if |data| - position < count {
        return Failure(OutOfData);
      }
      r := DecodeUtf8(data, position, position + count);
      if r.Success? {
        position := position + count;
      }
    }
  }

  /** The decoding loop of `readUtf8`: one code unit after the other until
      the block from start to end is used up or a unit is not well formed. */
  method DecodeUtf8(s: seq<byte>, start: nat, end: nat) returns (r: Result<seq<Utf8.CodeUnit>>)
    requires start <= end <= |s|
    ensures r == Utf8.Decode(s, start, end)
  {
    var text: seq<Utf8.CodeUnit> := [];
    var i := start;
    Utf8.PrependNothing(Utf8.Decode(s, start, end));
    while i < end
      invariant start <= i <= end
      invariant Utf8.Decode(s, start, end) == Utf8.Prepend(text, Utf8.Decode(s, i, end))
      decreases end - i
    {
      var unit := Utf8.DecodeUnit(s, i, end);
      Utf8.DecodeAdvance(s, start, i, end, text);
      if unit.Failure? {
        return Failure(unit.error);
      }
      text := text + [unit.value.0];
      i := unit.value.1;
    }
    assert text + [] == text;
    r := Success(text);
  }
}

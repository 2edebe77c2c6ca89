/** `contract.SERIALIZER.write` and `read` on a `yass.Writer` and a
    `yass.Reader`, and the `copy` and `compare` helpers of the serializer
    tests: a value written to a fresh writer and read back from a reader
    over the written bytes. */
module LocalSerializer {
  import opened Primitives
  import Utf8
  import Io
  import opened Serializer

  /** A tag, count, field number or ordinal through `writeVarInt`. */
  method WriteCount(w: Io.Writer, n: nat)
    requires w.Valid() && n < TwoTo32
    modifies w, w.buffer
    ensures w.Valid() && w.Written() == old(w.Written()) + Count(n)
    ensures w.buffer == old(w.buffer) || fresh(w.buffer)
  {
    w.WriteVarInt(ToSigned(n));
  }

  /** `SERIALIZER.write(value, writer)`: appends exactly the encoding of v. */
  method Write(reg: Registry, w: Io.Writer, v: Value)
    requires w.Valid() && WellFormed(reg, v)
    modifies w, w.buffer
    ensures w.Valid() && w.Written() == old(w.Written()) + Encode(v)
    ensures w.buffer == old(w.buffer) || fresh(w.buffer)
    decreases v, 3
  {
    AppendAssoc(w.Written(), Count(TagOf(v)), EncodePayload(v));
    WriteCount(w, TagOf(v));
    WritePayload(reg, w, v);
  }

  /** What follows the tag: nothing, the zig-zag integer, a length and the
      bytes, a count and the items, an ordinal, or the fields. */
  method WritePayload(reg: Registry, w: Io.Writer, v: Value)
    requires w.Valid() && WellFormed(reg, v)
    modifies w, w.buffer
    ensures w.Valid() && w.Written() == old(w.Written()) + EncodePayload(v)
    ensures w.buffer == old(w.buffer) || fresh(w.buffer)
    decreases v, 2
  {
    match v
    case Null =>
      assert w.Written() + [] == w.Written();
    case Bool(_) =>
      assert w.Written() + [] == w.Written();
    case Int(i) =>
      w.WriteZigZagInt(i);
    case Str(text) =>
      AppendAssoc(w.Written(), Count(|Utf8.Encode(text)|), Utf8.Encode(text));
      WriteCount(w, |Utf8.Encode(text)|);
      w.WriteUtf8(text);
    case Bytes(bytes) =>
      AppendAssoc(w.Written(), Count(|bytes|), bytes);
      WriteCount(w, |bytes|);
      w.WriteBytes(bytes);
    case List(items) =>
      AppendAssoc(w.Written(), Count(|items|), EncodeItems(v, 0));
      WriteCount(w, |items|);
      WriteItems(reg, w, v);
    case Enum(_, ordinal) =>
      WriteCount(w, ordinal);
    case Record(_, _) =>
      AppendAssoc(w.Written(), EncodeFields(v, 0), Count(0));
      WriteFields(reg, w, v);
      WriteCount(w, 0);
  }

  /** The items of a list one after the other. */
  method WriteItems(reg: Registry, w: Io.Writer, v: Value)
    requires w.Valid() && v.List? && WellFormed(reg, v)
    modifies w, w.buffer
    ensures w.Valid() && w.Written() == old(w.Written()) + EncodeItems(v, 0)
    ensures w.buffer == old(w.buffer) || fresh(w.buffer)
    decreases v, 1
  {
    for i := 0 to |v.items|
      invariant w.Valid() && (w.buffer == old(w.buffer) || fresh(w.buffer))
      invariant old(w.Written()) + EncodeItems(v, 0) == w.Written() + EncodeItems(v, i)
    {
      assert v.items[i] in v.items;
      AppendAssoc(w.Written(), Encode(v.items[i]), EncodeItems(v, i + 1));
      Write(reg, w, v.items[i]);
    }
  }

  /** The present fields of a record, each as its number and its value. */
  method WriteFields(reg: Registry, w: Io.Writer, v: Value)
    requires w.Valid() && v.Record? && WellFormed(reg, v)
    modifies w, w.buffer
    ensures w.Valid() && w.Written() == old(w.Written()) + EncodeFields(v, 0)
    ensures w.buffer == old(w.buffer) || fresh(w.buffer)
    decreases v, 1
  {
    for i := 0 to |v.fields|
      invariant w.Valid() && (w.buffer == old(w.buffer) || fresh(w.buffer))
      invariant old(w.Written()) + EncodeFields(v, 0) == w.Written() + EncodeFields(v, i)
    {
      FieldEncoding(v, i);
      if !Skipped(v.fields[i]) {
        FieldWellFormed(reg, v, i);
        var x := v.fields[i].value;
        AppendAssoc(w.Written(), Count(i + 1), Encode(x) + EncodeFields(v, i + 1));
        WriteCount(w, i + 1);
        AppendAssoc(w.Written(), Encode(x), EncodeFields(v, i + 1));
        Write(reg, w, x);
      }
    }
  }

  // ---------------------------------------------------------------------------
  // Reading: each method consumes what the decoding function of the same
  // name reads and gives its value; a failed read reports the same error.

  /** A tag, count, field number or ordinal through `readVarInt`. */
  method ReadCount(r: Io.Reader) returns (res: Result<nat>)
    requires r.Valid()
    modifies r
    ensures r.Valid() && res == ValueOf(DecodeCount(r.data, old(r.position)))
    ensures r.position == EndOf(DecodeCount(r.data, old(r.position)), old(r.position))
  {
    var x := r.ReadVarInt();
    res := if x.Success? then Success(ToUnsigned(x.value)) else Failure(x.error);
  }

  /** `SERIALIZER.read(reader)`. */
  method Read(reg: Registry, r: Io.Reader) returns (res: Result<Value>)
    requires r.Valid()
    modifies r
    ensures r.Valid() && old(r.position) <= r.position
    ensures res == ValueOf(DecodeValue(reg, r.data, old(r.position)))
    ensures res.Success? ==> r.position == DecodeValue(reg, r.data, old(r.position)).value.1
    decreases |r.data| - r.position, 0
  {
    var tag := ReadCount(r);
    if tag.Failure? {
      return Failure(tag.error);
    }
    res := ReadPayload(reg, r, tag.value);
  }

  method ReadPayload(reg: Registry, r: Io.Reader, tag: nat) returns (res: Result<Value>)
    requires r.Valid()
    modifies r
    ensures r.Valid() && old(r.position) <= r.position
    ensures res == ValueOf(DecodePayload(reg, tag, r.data, old(r.position)))
    ensures res.Success? ==> r.position == DecodePayload(reg, tag, r.data, old(r.position)).value.1
    decreases |r.data| - r.position, 2
  {
    if tag == NullTag {
      res := Success(Null);
    } else if tag == TrueTag {
      res := Success(Bool(true));
    } else if tag == FalseTag {
      res := Success(Bool(false));
    } else if tag == IntTag {
      var i := r.ReadZigZagInt();
      res := if i.Success? then Success(Int(i.value)) else Failure(i.error);
    } else if tag == StringTag {
      var length := ReadCount(r);
      if length.Failure? {
        return Failure(length.error);
      }
      var text := r.ReadUtf8(length.value);
      res := if text.Success? then Success(Str(text.value)) else Failure(text.error);
    } else if tag == BytesTag {
      var length := ReadCount(r);
      if length.Failure? {
        return Failure(length.error);
      }
      var bytes := r.ReadBytes(length.value);
      res := if bytes.Success? then Success(Bytes(bytes.value)) else Failure(bytes.error);
    } else if tag == ListTag {
      var count := ReadCount(r);
      if count.Failure? {
        return Failure(count.error);
      }
      var items := ReadItems(reg, r, count.value);
      res := if items.Success? then Success(List(items.value)) else Failure(items.error);
    } else if !IsUserTag(reg, tag) {
      res := Failure(UnknownTypeTag(tag));
    } else {
      match DescOf(reg, tag)
      case EnumDesc(_, constants) =>
        var ordinal := ReadCount(r);
        if ordinal.Failure? {
          return Failure(ordinal.error);
        }
        res := if ordinal.value >= |constants| then Failure(UnknownOrdinal(ordinal.value))
               else Success(Enum(tag, ordinal.value));
      case ClassDesc(_, fields, _) =>
        var values := ReadFields(reg, r, |fields|);
        res := if values.Success? then Success(Record(tag, values.value)) else Failure(values.error);
    }
  }

  /** count values one after the other. */
  method ReadItems(reg: Registry, r: Io.Reader, count: nat) returns (res: Result<seq<Value>>)
    requires r.Valid()
    modifies r
    ensures r.Valid() && old(r.position) <= r.position
    ensures res == ValueOf(DecodeItems(reg, r.data, old(r.position), count))
    ensures res.Success? ==> r.position == DecodeItems(reg, r.data, old(r.position), count).value.1
    decreases |r.data| - r.position, 1
  {
    var items: seq<Value> := [];
    var k := 0;
    ghost var start := r.position;
    PrefixedNothing(DecodeItems(reg, r.data, start, count));
    while k < count
      invariant r.Valid() && start <= r.position && k <= count
      invariant DecodeItems(reg, r.data, start, count) == Prefixed(items, DecodeItems(reg, r.data, r.position, count - k))
    {
      ghost var pos := r.position;
      var x := Read(reg, r);
      if x.Failure? {
        return Failure(x.error);
      }
      ItemsStep(reg, r.data, pos, count - k, x.value, r.position);
      PrefixedTwice(items, [x.value], DecodeItems(reg, r.data, r.position, count - k - 1));
      items := items + [x.value];
      k := k + 1;
    }
    assert items + [] == items;
    res := Success(items);
  }

  /** Field numbers and values until the number 0, into a record whose
      fields start out absent. */
  method ReadFields(reg: Registry, r: Io.Reader, n: nat) returns (res: Result<seq<Option<Value>>>)
    requires r.Valid()
    modifies r
    ensures r.Valid() && old(r.position) <= r.position
    ensures res == ValueOf(DecodeFields(reg, r.data, old(r.position), Absent(n)))
    ensures res.Success? ==> r.position == DecodeFields(reg, r.data, old(r.position), Absent(n)).value.1
    decreases |r.data| - r.position, 1
  {
    var fields := Absent(n);
    ghost var start := r.position;
    while true
      invariant r.Valid() && start <= r.position && |fields| == n
      invariant DecodeFields(reg, r.data, start, Absent(n)) == DecodeFields(reg, r.data, r.position, fields)
      decreases |r.data| - r.position
    {
      ghost var pos := r.position;
      var id := ReadCount(r);
      if id.Failure? {
        return Failure(id.error);
      }
      if id.value == 0 {
        return Success(fields);
      }
      if id.value > n {
        return Failure(UnknownFieldId(id.value));
      }
      ghost var next := r.position;
      var x := Read(reg, r);
      if x.Failure? {
        return Failure(x.error);
      }
      FieldsStep(reg, r.data, pos, fields, id.value, next, x.value, r.position);
      fields := fields[id.value - 1 := Some(x.value)];
    }
  }


  // ---------------------------------------------------------------------------
  // The helpers of the local serializer test.

  /** `copy(value)`: writes v to a writer of capacity 100, reads a value back
      from a reader over the written bytes and reports whether the reader is
      then empty. The copy is v with its null record fields absent, and
      every byte written is consumed. */
  method Copy(reg: Registry, v: Value) returns (res: Result<Value>, empty: bool)
    requires WellFormed(reg, v)
    ensures res == Success(Canon(v)) && empty
    ensures NullFree(v) ==> res == Success(v)
  {
    var w := new Io.Writer(100);
    Write(reg, w, v);
    var bytes := w.GetArray();
    assert bytes == Encode(v);
    assert At(bytes, 0, Encode(v));
    ghost var end := RoundTrip(reg, v, bytes, 0);
    var r := new Io.Reader(bytes);
    res := Read(reg, r);
    empty := r.IsEmpty();
    if NullFree(v) {
      CanonOfNullFree(v);
    }
  }

  /** `compare(array1, array2)`: same length and equal item by item. */
  method Compare(a: seq<Value>, b: seq<Value>) returns (same: bool)
    ensures same <==> a == b
  {
    if |a| != |b| {
      return false;
    }
    for i := 0 to |a|
      invariant a[..i] == b[..i]
    {
      if a[i] != b[i] {
        return false;
      }
    }
    assert a == a[..|a|] && b == b[..|b|];
    return true;
  }
}

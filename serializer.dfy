/** The self-describing serializer behind `contract.SERIALIZER`: every value
    is written as a type tag followed by a tag-specific payload, so a reader
    can decode a heterogeneous list element by element without a schema.
    Enumerations and record types are identified by tags taken from a
    registry that writer and reader share. */
module Serializer {
  import opened Primitives
  import Codec
  import Utf8

  // Tags of the built-in value kinds; registered types follow from FirstUserTag.
  const NullTag: nat := 0
  const ListTag: nat := 1
  const TrueTag: nat := 2
  const FalseTag: nat := 3
  const IntTag: nat := 4
  const StringTag: nat := 5
  const BytesTag: nat := 6
  const FirstUserTag: nat := 7

  /** A registered type: an enumeration with its constants in ordinal order,
      or a record (class or exception) with its fields in declaration order. */
  datatype TypeDesc =
    | EnumDesc(name: string, constants: seq<string>)
    | ClassDesc(name: string, fields: seq<string>, isException: bool)

  /** The type registered under tag FirstUserTag + i is at index i. */
  type Registry = seq<TypeDesc>

  /** An application value. An enumeration constant is the singleton at
      `ordinal` of the enumeration registered under `tag`; two constants are
      the same object exactly when tag and ordinal agree. A record field is
      None when absent (`undefined`). */
  datatype Value =
    | Null
    | Bool(b: bool)
    | Int(i: int32)
    | Str(text: seq<Utf8.CodeUnit>)
    | Bytes(bytes: seq<byte>)
    | List(items: seq<Value>)
    | Enum(tag: nat, ordinal: nat)
    | Record(tag: nat, fields: seq<Option<Value>>)

  predicate IsUserTag(reg: Registry, tag: nat) {
    FirstUserTag <= tag < FirstUserTag + |reg|
  }

  function DescOf(reg: Registry, tag: nat): TypeDesc
    requires IsUserTag(reg, tag)
  {
    reg[tag - FirstUserTag]
  }

  /** The values the serializer can write: registered enumeration constants
      and records of their registered shape, with every tag, ordinal, field
      number and length small enough for the unsigned 32-bit var-int that
      carries it. */
  predicate WellFormed(reg: Registry, v: Value)
    decreases v
  {
    match v
    case Null => true
    case Bool(_) => true
    case Int(_) => true
    case Str(text) => |Utf8.Encode(text)| < TwoTo32
    case Bytes(bytes) => |bytes| < TwoTo32
    case List(items) =>
      |items| < TwoTo32 && forall i | 0 <= i < |items| :: WellFormed(reg, items[i])
    case Enum(tag, ordinal) =>
      && IsUserTag(reg, tag) && tag < TwoTo32 && DescOf(reg, tag).EnumDesc?
      && ordinal < |DescOf(reg, tag).constants| && ordinal < TwoTo32
    case Record(tag, fields) =>
      && IsUserTag(reg, tag) && tag < TwoTo32 && DescOf(reg, tag).ClassDesc?
      && |fields| == |DescOf(reg, tag).fields| && |fields| < TwoTo32
      && forall i | 0 <= i < |fields| ::
           match fields[i]
           case None => true
           case Some(x) => (assert fields[i] in fields; WellFormed(reg, x))
  }

  // ---------------------------------------------------------------------------
  // Encoding

  /** A tag, count, field number or ordinal: an unsigned var-int. */
  function Count(n: nat): seq<byte> {
    Codec.EncodeVarUnsigned(n)
  }

  /** Reads a count at pos: the var-int's 32 bits taken as unsigned. */
  function DecodeCount(s: seq<byte>, pos: nat): (r: Result<(nat, nat)>)
    ensures r.Success? ==> pos < r.value.1 <= |s| && r.value.0 < TwoTo32
  {
    var read :- Codec.DecodeVarInt(s, pos);
    var x, end := read.0, read.1;
    Success((ToUnsigned(x), end))
  }

  lemma CountRoundTrip(n: nat, s: seq<byte>, pos: nat)
    requires n < TwoTo32 && At(s, pos, Count(n))
    ensures DecodeCount(s, pos) == Success((n, pos + |Count(n)|))
  {
    Codec.VarIntRoundTrip(ToSigned(n), s, pos);
  }

  /** A field is skipped when it is absent or null. */
  predicate Skipped(field: Option<Value>) {
    field.None? || field.value.Null?
  }

  /** The tag that announces a value's kind. */
  function TagOf(v: Value): nat {
    match v
    case Null => NullTag
    case Bool(b) => if b then TrueTag else FalseTag
    case Int(_) => IntTag
    case Str(_) => StringTag
    case Bytes(_) => BytesTag
    case List(_) => ListTag
    case Enum(tag, _) => tag
    case Record(tag, _) => tag
  }

  /** `SERIALIZER.write`: the tag, then the payload its kind prescribes.
      Null and the booleans take one byte, their tag; every other value takes
      at least two. */
  function Encode(v: Value): (b: seq<byte>)
    ensures |b| >= 1
    ensures |b| == 1 <==> v.Null? || v.Bool?
    decreases v, 3
  {
    Count(TagOf(v)) + EncodePayload(v)
  }

  /** Only null and the booleans have no payload: their tag says it all. */
  function EncodePayload(v: Value): (b: seq<byte>)
    ensures b == [] <==> v.Null? || v.Bool?
    decreases v, 2
  {
    match v
    case Null => []
    case Bool(_) => []
    case Int(i) => Codec.EncodeZigZagInt(i)
    case Str(text) => Count(|Utf8.Encode(text)|) + Utf8.Encode(text)
    case Bytes(bytes) => Count(|bytes|) + bytes
    case List(items) => Count(|items|) + EncodeItems(v, 0)
    case Enum(_, ordinal) => Count(ordinal)
    case Record(_, _) => EncodeFields(v, 0) + Count(0)
  }

  /** The items of list v from index i on, one after the other. */
  function EncodeItems(v: Value, i: nat): seq<byte>
    requires v.List? && i <= |v.items|
    decreases v, 1, |v.items| - i
  {
    if i == |v.items| then [] else Encode(v.items[i]) + EncodeItems(v, i + 1)
  }

  /** The fields of record v from index i on that are present and not null,
      each as its number (counting from 1) followed by its value. */
  function EncodeFields(v: Value, i: nat): seq<byte>
    requires v.Record? && i <= |v.fields|
    decreases v, 1, |v.fields| - i
  {
    if i == |v.fields| then []
    else
      match v.fields[i]
      case Some(x) =>
        if x.Null? then EncodeFields(v, i + 1)
        else assert v.fields[i] in v.fields; Count(i + 1) + Encode(x) + EncodeFields(v, i + 1)
      case None => EncodeFields(v, i + 1)
  }

  // ---------------------------------------------------------------------------
  // Decoding: each decoder reads from a cursor position and gives the value
  // and the position after it.

  /** `SERIALIZER.read`: a tag, then the payload of that kind. */
  function DecodeValue(reg: Registry, s: seq<byte>, pos: nat): (r: Result<(Value, nat)>)
    requires pos <= |s|
    ensures r.Success? ==> pos < r.value.1 <= |s|
    decreases |s| - pos, 2
  {
    var tagged :- DecodeCount(s, pos);
    var tag, start := tagged.0, tagged.1;
    DecodePayload(reg, tag, s, start)
  }

  /** The payload of a value announced by tag. A tag that is neither built in
      nor registered fails the read. */
  function DecodePayload(reg: Registry, tag: nat, s: seq<byte>, pos: nat): (r: Result<(Value, nat)>)
    requires pos <= |s|
    ensures r.Success? ==> pos <= r.value.1 <= |s|
    ensures tag >= FirstUserTag && !IsUserTag(reg, tag) ==> r == Failure(UnknownTypeTag(tag))
    decreases |s| - pos, 1
  {
    if tag == NullTag then Success((Null, pos))
    else if tag == TrueTag then Success((Bool(true), pos))
    else if tag == FalseTag then Success((Bool(false), pos))
    else if tag == IntTag then
      var read :- Codec.DecodeZigZagInt(s, pos);
      var i, end := read.0, read.1;
      Success((Int(i), end))
    else if tag == StringTag then DecodeString(s, pos)
    else if tag == BytesTag then DecodeBytes(s, pos)
    else if tag == ListTag then
      var counted :- DecodeCount(s, pos);
      var count, start := counted.0, counted.1;
      var listed :- DecodeItems(reg, s, start, count);
      var items, end := listed.0, listed.1;
      Success((List(items), end))
    else if !IsUserTag(reg, tag) then Failure(UnknownTypeTag(tag))
    else
      match DescOf(reg, tag)
      case EnumDesc(_, constants) => DecodeEnum(tag, |constants|, s, pos)
      case ClassDesc(_, fields, _) =>
        var filled :- DecodeFields(reg, s, pos, Absent(|fields|));
        var values, end := filled.0, filled.1;
        Success((Record(tag, values), end))
  }

  /** The byte length, then that many bytes of UTF-8. */
  function DecodeString(s: seq<byte>, pos: nat): (r: Result<(Value, nat)>)
    ensures r.Success? ==> pos < r.value.1 <= |s|
  {
    var sized :- DecodeCount(s, pos);
    var length, start := sized.0, sized.1;
    var decoded :- Utf8.ReadFrom(s, start, length);
    var text, end := decoded.0, decoded.1;
    Success((Str(text), end))
  }

  /** The length, then that many raw bytes. */
  function DecodeBytes(s: seq<byte>, pos: nat): (r: Result<(Value, nat)>)
    ensures r.Success? ==> pos < r.value.1 <= |s|
  {
    var sized :- DecodeCount(s, pos);
    var length, start := sized.0, sized.1;
    var read :- Codec.ReadBytesAt(s, start, length);
    var bytes, end := read.0, read.1;
    Success((Bytes(bytes), end))
  }

  /** The ordinal of a constant of the enumeration under tag, which has count
      constants: the singleton it names, or a failure for an unknown one. */
  function DecodeEnum(tag: nat, count: nat, s: seq<byte>, pos: nat): (r: Result<(Value, nat)>)
    ensures r.Success? ==> pos < r.value.1 <= |s| && r.value.0.Enum? && r.value.0.tag == tag && r.value.0.ordinal < count
  {
    var numbered :- DecodeCount(s, pos);
    var ordinal, end := numbered.0, numbered.1;
    if ordinal >= count then Failure(UnknownOrdinal(ordinal))
    else Success((Enum(tag, ordinal), end))
  }

  /** count values, one after the other. */
  function DecodeItems(reg: Registry, s: seq<byte>, pos: nat, count: nat): (r: Result<(seq<Value>, nat)>)
    requires pos <= |s|
    ensures r.Success? ==> |r.value.0| == count && pos <= r.value.1 <= |s|
    decreases |s| - pos, 3
  {
    if count == 0 then Success(([], pos))
    else
      var read :- DecodeValue(reg, s, pos);
      var v, next := read.0, read.1;
      var others :- DecodeItems(reg, s, next, count - 1);
      var rest, end := others.0, others.1;
      Success(([v] + rest, end))
  }

  /** A record with every field absent, as a fresh instance starts out. */
  function Absent(n: nat): (fields: seq<Option<Value>>)
    ensures |fields| == n && forall i | 0 <= i < n :: fields[i] == None
  {
    seq(n, _ => None)
  }

  /** Field number and value pairs until the number 0; each sets its field
      of the record read so far. */
  function DecodeFields(reg: Registry, s: seq<byte>, pos: nat, fields: seq<Option<Value>>): (r: Result<(seq<Option<Value>>, nat)>)
    requires pos <= |s|
    ensures r.Success? ==> |r.value.0| == |fields| && pos < r.value.1 <= |s|
    decreases |s| - pos, 0
  {
    var numbered :- DecodeCount(s, pos);
    var id, next := numbered.0, numbered.1;
    if id == 0 then Success((fields, next))
    else if id > |fields| then Failure(UnknownFieldId(id))
    else
      var read :- DecodeValue(reg, s, next);
      var v, after := read.0, read.1;
      DecodeFields(reg, s, after, fields[id - 1 := Some(v)])
  }

  // ---------------------------------------------------------------------------
  // What a round trip gives back: the value itself, except that a record
  // field holding null comes back absent.

  /** v as it reads back: of the same kind, under the same tag. */
  function Canon(v: Value): (r: Value)
    ensures TagOf(r) == TagOf(v)
    ensures r.List? <==> v.List?
    ensures r.Record? <==> v.Record?
    decreases v, 2
  {
    match v
    case List(items) => List(CanonItems(v, 0))
    case Record(tag, fields) => Record(tag, CanonFields(v, 0))
    case _ => v
  }

  function CanonItems(v: Value, i: nat): (r: seq<Value>)
    requires v.List? && i <= |v.items|
    ensures |r| == |v.items| - i
    ensures forall j | 0 <= j < |r| :: r[j] == Canon(v.items[i + j])
    decreases v, 0, |v.items| - i
  {
    if i == |v.items| then [] else [Canon(v.items[i])] + CanonItems(v, i + 1)
  }

  /** Field i of record v as it reads back. */
  function CanonField(v: Value, i: nat): Option<Value>
    requires v.Record? && i < |v.fields|
    decreases v, 0, 0
  {
    match v.fields[i]
    case Some(x) => if x.Null? then None else assert v.fields[i] in v.fields; Some(Canon(x))
    case None => None
  }

  function CanonFields(v: Value, i: nat): (r: seq<Option<Value>>)
    requires v.Record? && i <= |v.fields|
    ensures |r| == |v.fields| - i
    ensures forall j | 0 <= j < |r| :: r[j] == CanonField(v, i + j)
    decreases v, 0, |v.fields| - i + 1
  {
    if i == |v.fields| then [] else [CanonField(v, i)] + CanonFields(v, i + 1)
  }

  /** No record field anywhere inside v holds null: the values that a round
      trip gives back unchanged. */
  predicate NullFree(v: Value)
    decreases v
  {
    match v
    case List(items) => forall i | 0 <= i < |items| :: NullFree(items[i])
    case Record(_, fields) =>
      forall i | 0 <= i < |fields| ::
        (match fields[i]
         case None => true
         case Some(x) => (assert fields[i] in fields; !x.Null? && NullFree(x)))
    case _ => true
  }

  /** Reading back keeps the kind of a value, its tag, its length and its
      fields' absence, and only turns null fields into absent ones. */
  lemma CanonShape(v: Value)
    ensures TagOf(Canon(v)) == TagOf(v) && (Canon(v).Null? <==> v.Null?)
    ensures v.List? ==> Canon(v).List? && |Canon(v).items| == |v.items|
    ensures v.Record? ==> Canon(v).Record? && |Canon(v).fields| == |v.fields|
    ensures v.Record? ==> forall i | 0 <= i < |v.fields| ::
      Canon(v).fields[i] == if Skipped(v.fields[i]) then None else Some(Canon(v.fields[i].value))
  {
    if v.Record? {
      forall i | 0 <= i < |v.fields|
        ensures Canon(v).fields[i] == if Skipped(v.fields[i]) then None else Some(Canon(v.fields[i].value))
      {
        assert Canon(v).fields[i] == CanonField(v, i);
      }
    }
  }

  /** What a round trip gives back has no null fields left. */
  lemma {:induction false} CanonNullFree(v: Value)
    ensures NullFree(Canon(v))
    decreases v
  {
    match v
    case List(items) =>
      forall i | 0 <= i < |items|
        ensures NullFree(Canon(v).items[i])
      {
        CanonNullFree(items[i]);
      }
    case Record(_, fields) =>
      var c := Canon(v);
      forall i | 0 <= i < |fields|
        ensures match c.fields[i] case None => true case Some(x) => !x.Null? && NullFree(x)
      {
        assert c.fields[i] == CanonField(v, i);
        if !Skipped(fields[i]) {
          assert fields[i] in fields;
          CanonShape(fields[i].value);
          CanonNullFree(fields[i].value);
        }
      }
    case _ =>
  }

  /** A value without null fields comes back unchanged. */
  lemma {:induction false} CanonOfNullFree(v: Value)
    requires NullFree(v)
    ensures Canon(v) == v
    decreases v
  {
    match v
    case List(items) =>
      forall i | 0 <= i < |items|
        ensures Canon(v).items[i] == items[i]
      {
        CanonOfNullFree(items[i]);
      }
    case Record(_, fields) =>
      forall i | 0 <= i < |fields|
        ensures Canon(v).fields[i] == fields[i]
      {
        assert Canon(v).fields[i] == CanonField(v, i);
        if fields[i].Some? {
          assert fields[i] in fields;
          CanonOfNullFree(fields[i].value);
        }
      }
    case _ =>
  }

  /** Copying a copy gives the same value again. */
  lemma CanonIdempotent(v: Value)
    ensures Canon(Canon(v)) == Canon(v)
  {
    CanonNullFree(v);
    CanonOfNullFree(Canon(v));
  }

  // ---------------------------------------------------------------------------
  // One step of each decoding loop.

  /** A field number in range followed by a value sets that field and goes on
      after the value. */
  lemma FieldsStep(reg: Registry, s: seq<byte>, pos: nat, fields: seq<Option<Value>>, id: nat, next: nat, v: Value, after: nat)
    requires pos <= |s|
    requires DecodeCount(s, pos) == Success((id, next)) && 0 < id <= |fields|
    requires DecodeValue(reg, s, next) == Success((v, after))
    ensures DecodeFields(reg, s, pos, fields) == DecodeFields(reg, s, after, fields[id - 1 := Some(v)])
  {
  }

  /** A value read puts itself in front of the values after it. */
  lemma ItemsStep(reg: Registry, s: seq<byte>, pos: nat, count: nat, v: Value, next: nat)
    requires pos <= |s| && count > 0
    requires DecodeValue(reg, s, pos) == Success((v, next))
    ensures DecodeItems(reg, s, pos, count) == Prefixed([v], DecodeItems(reg, s, next, count - 1))
  {
  }

  // ---------------------------------------------------------------------------
  // The copy round trip: reading back what was written, wherever it stands,
  // gives the value with null record fields absent, and ends right after the
  // bytes written.

  lemma {:induction false} RoundTrip(reg: Registry, v: Value, s: seq<byte>, pos: nat) returns (end: nat)
    requires WellFormed(reg, v) && At(s, pos, Encode(v))
    ensures end == pos + |Encode(v)|
    ensures DecodeValue(reg, s, pos) == Success((Canon(v), end))
    decreases v, 3
  {
    var tag := Count(TagOf(v));
    AtAppend(s, pos, tag, EncodePayload(v));
    CountRoundTrip(TagOf(v), s, pos);
    end := PayloadRoundTrip(reg, v, s, pos + |tag|);
  }

  lemma {:induction false} PayloadRoundTrip(reg: Registry, v: Value, s: seq<byte>, pos: nat) returns (end: nat)
    requires WellFormed(reg, v) && At(s, pos, EncodePayload(v))
    ensures end == pos + |EncodePayload(v)|
    ensures DecodePayload(reg, TagOf(v), s, pos) == Success((Canon(v), end))
    decreases v, 2
  {
    match v
    case Null =>
      end := pos;
    case Bool(_) =>
      end := pos;
    case Int(i) =>
      Codec.ZigZagRoundTrip(i, s, pos);
      end := pos + |Codec.EncodeZigZagInt(i)|;
    case Str(text) =>
      StringRoundTrip(text, s, pos);
      end := pos + |Count(|Utf8.Encode(text)|)| + |Utf8.Encode(text)|;
    case Bytes(bytes) =>
      BytesRoundTrip(bytes, s, pos);
      end := pos + |Count(|bytes|)| + |bytes|;
    case List(_) =>
      end := ListRoundTrip(reg, v, s, pos);
    case Enum(tag, ordinal) =>
      CountRoundTrip(ordinal, s, pos);
      end := pos + |Count(ordinal)|;
    case Record(_, _) =>
      end := RecordRoundTrip(reg, v, s, pos);
  }

  lemma {:induction false} ListRoundTrip(reg: Registry, v: Value, s: seq<byte>, pos: nat) returns (end: nat)
    requires v.List? && WellFormed(reg, v) && At(s, pos, EncodePayload(v))
    ensures end == pos + |EncodePayload(v)|
    ensures DecodePayload(reg, ListTag, s, pos) == Success((Canon(v), end))
    decreases v, 1, |v.items| + 1
  {
    var count := Count(|v.items|);
    AtAppend(s, pos, count, EncodeItems(v, 0));
    CountRoundTrip(|v.items|, s, pos);
    end := ItemsRoundTrip(reg, v, 0, s, pos + |count|);
  }

  lemma {:induction false} RecordRoundTrip(reg: Registry, v: Value, s: seq<byte>, pos: nat) returns (end: nat)
    requires v.Record? && WellFormed(reg, v) && At(s, pos, EncodePayload(v))
    ensures end == pos + |EncodePayload(v)|
    ensures DecodePayload(reg, v.tag, s, pos) == Success((Canon(v), end))
    decreases v, 1, |v.fields| + 1
  {
    end := FieldsRoundTrip(reg, v, 0, Absent(|v.fields|), s, pos);
    FilledCanon(v, 0, Absent(|v.fields|));
  }

  lemma StringRoundTrip(text: seq<Utf8.CodeUnit>, s: seq<byte>, pos: nat)
    requires |Utf8.Encode(text)| < TwoTo32
    requires At(s, pos, Count(|Utf8.Encode(text)|) + Utf8.Encode(text))
    ensures DecodeString(s, pos) == Success((Str(text), pos + |Count(|Utf8.Encode(text)|)| + |Utf8.Encode(text)|))
  {
    var e := Utf8.Encode(text);
    var start := pos + |Count(|e|)|;
    AtAppend(s, pos, Count(|e|), e);
    CountRoundTrip(|e|, s, pos);
    Utf8.ReadRoundTrip(text, s, start);
    assert DecodeCount(s, pos) == Success((|e|, start));
  }

  lemma BytesRoundTrip(bytes: seq<byte>, s: seq<byte>, pos: nat)
    requires |bytes| < TwoTo32 && At(s, pos, Count(|bytes|) + bytes)
    ensures DecodeBytes(s, pos) == Success((Bytes(bytes), pos + |Count(|bytes|)| + |bytes|))
  {
    AtAppend(s, pos, Count(|bytes|), bytes);
    CountRoundTrip(|bytes|, s, pos);
    AtSlice(s, pos + |Count(|bytes|)|, bytes);
  }

  lemma {:induction false} ItemsRoundTrip(reg: Registry, v: Value, i: nat, s: seq<byte>, pos: nat) returns (end: nat)
    requires v.List? && i <= |v.items| && WellFormed(reg, v)
    requires At(s, pos, EncodeItems(v, i))
    ensures end == pos + |EncodeItems(v, i)|
    ensures DecodeItems(reg, s, pos, |v.items| - i) == Success((CanonItems(v, i), end))
    decreases v, 1, |v.items| - i
  {
    if i == |v.items| {
      end := pos;
    } else {
      var next := ItemRoundTrip(reg, v, i, s, pos);
      end := ItemsRoundTrip(reg, v, i + 1, s, next);
    }
  }

  /** One item: its value, then the items after it. */
  lemma {:induction false} ItemRoundTrip(reg: Registry, v: Value, i: nat, s: seq<byte>, pos: nat) returns (next: nat)
    requires v.List? && i < |v.items| && WellFormed(reg, v)
    requires At(s, pos, EncodeItems(v, i))
    ensures next == pos + |Encode(v.items[i])| <= |s|
    ensures At(s, next, EncodeItems(v, i + 1))
    ensures pos + |EncodeItems(v, i)| == next + |EncodeItems(v, i + 1)|
    ensures DecodeItems(reg, s, pos, |v.items| - i) == Prefixed([Canon(v.items[i])], DecodeItems(reg, s, next, |v.items| - i - 1))
    decreases v, 0
  {
    var x := v.items[i];
    next := pos + |Encode(x)|;
    assert x in v.items;
    AtAppend(s, pos, Encode(x), EncodeItems(v, i + 1));
    var end := RoundTrip(reg, x, s, pos);
    ItemsStep(reg, s, pos, |v.items| - i, Canon(x), next);
  }

  // ---------------------------------------------------------------------------
  // The decoding errors.

  /** A tag beyond the built-in kinds and the registered types fails the read. */
  lemma UnknownTagFails(reg: Registry, tag: nat, s: seq<byte>, pos: nat)
    requires FirstUserTag + |reg| <= tag < TwoTo32 && At(s, pos, Count(tag))
    ensures DecodeValue(reg, s, pos) == Failure(UnknownTypeTag(tag))
  {
    CountRoundTrip(tag, s, pos);
  }

  /** An ordinal past the constants of its enumeration fails the read. */
  lemma UnknownOrdinalFails(reg: Registry, tag: nat, ordinal: nat, s: seq<byte>, pos: nat)
    requires IsUserTag(reg, tag) && tag < TwoTo32 && DescOf(reg, tag).EnumDesc?
    requires |DescOf(reg, tag).constants| <= ordinal < TwoTo32
    requires At(s, pos, Count(tag) + Count(ordinal))
    ensures DecodeValue(reg, s, pos) == Failure(UnknownOrdinal(ordinal))
  {
    AtAppend(s, pos, Count(tag), Count(ordinal));
    CountRoundTrip(tag, s, pos);
    CountRoundTrip(ordinal, s, pos + |Count(tag)|);
  }

  /** A field number past the fields of its record type fails the read. */
  lemma UnknownFieldFails(reg: Registry, tag: nat, id: nat, s: seq<byte>, pos: nat)
    requires IsUserTag(reg, tag) && tag < TwoTo32 && DescOf(reg, tag).ClassDesc?
    requires |DescOf(reg, tag).fields| < id < TwoTo32
    requires At(s, pos, Count(tag) + Count(id))
    ensures DecodeValue(reg, s, pos) == Failure(UnknownFieldId(id))
  {
    AtAppend(s, pos, Count(tag), Count(id));
    CountRoundTrip(tag, s, pos);
    CountRoundTrip(id, s, pos + |Count(tag)|);
    var n := |DescOf(reg, tag).fields|;
    assert DecodeFields(reg, s, pos + |Count(tag)|, Absent(n)) == Failure(UnknownFieldId(id));
  }

  /** acc with the fields of v from index i on that read back filled in,
      as decoding them one by one sets them. */
  function Filled(v: Value, i: nat, acc: seq<Option<Value>>): (r: seq<Option<Value>>)
    requires v.Record? && i <= |v.fields| && |acc| == |v.fields|
    ensures |r| == |acc|
    decreases |v.fields| - i
  {
    if i == |v.fields| then acc
    else if Skipped(v.fields[i]) then Filled(v, i + 1, acc)
    else Filled(v, i + 1, acc[i := Some(Canon(v.fields[i].value))])
  }

  /** Filling a record whose fields before i already read back and whose
      others are absent gives every field as it reads back. */
  lemma {:induction false} FilledCanon(v: Value, i: nat, acc: seq<Option<Value>>)
    requires v.Record? && i <= |v.fields| && |acc| == |v.fields|
    requires forall j | 0 <= j < i :: acc[j] == CanonField(v, j)
    requires forall j | i <= j < |acc| :: acc[j] == None
    ensures Filled(v, i, acc) == CanonFields(v, 0)
    decreases |v.fields| - i
  {
    if i == |v.fields| {
      assert acc == CanonFields(v, 0);
    } else if Skipped(v.fields[i]) {
      FilledCanon(v, i + 1, acc);
    } else {
      FilledCanon(v, i + 1, acc[i := Some(Canon(v.fields[i].value))]);
    }
  }

  /** Decoding the fields from index i on into a record read so far ends at
      the end of their encoding. */
  lemma {:induction false} FieldsRoundTrip(reg: Registry, v: Value, i: nat, acc: seq<Option<Value>>, s: seq<byte>, pos: nat) returns (end: nat)
    requires v.Record? && i <= |v.fields| && WellFormed(reg, v) && |acc| == |v.fields|
    requires At(s, pos, EncodeFields(v, i) + Count(0))
    ensures end == pos + |EncodeFields(v, i)| + |Count(0)|
    ensures DecodeFields(reg, s, pos, acc) == Success((Filled(v, i, acc), end))
    decreases v, 1, |v.fields| - i
  {
    if i == |v.fields| {
      assert EncodeFields(v, i) + Count(0) == Count(0);
      CountRoundTrip(0, s, pos);
      end := pos + |Count(0)|;
    } else if Skipped(v.fields[i]) {
      end := FieldsRoundTrip(reg, v, i + 1, acc, s, pos);
    } else {
      var x := v.fields[i].value;
      var next := PresentFieldStep(reg, v, i, acc, s, pos);
      end := FieldsRoundTrip(reg, v, i + 1, acc[i := Some(Canon(x))], s, next);
    }
  }

  /** Decoding a present field sets it and goes on after its value. */
  lemma PresentFieldStep(reg: Registry, v: Value, i: nat, acc: seq<Option<Value>>, s: seq<byte>, pos: nat) returns (next: nat)
    requires v.Record? && i < |v.fields| && WellFormed(reg, v) && !Skipped(v.fields[i]) && |acc| == |v.fields|
    requires At(s, pos, EncodeFields(v, i) + Count(0))
    ensures next == pos + |Count(i + 1)| + |Encode(v.fields[i].value)| <= |s|
    ensures At(s, next, EncodeFields(v, i + 1) + Count(0))
    ensures pos + |EncodeFields(v, i)| == next + |EncodeFields(v, i + 1)|
    ensures DecodeFields(reg, s, pos, acc) == DecodeFields(reg, s, next, acc[i := Some(Canon(v.fields[i].value))])
    decreases v, 0, 1
  {
    var x := v.fields[i].value;
    next := pos + |Count(i + 1)| + |Encode(x)|;
    FieldRoundTrip(reg, v, i, s, pos);
    FieldsStep(reg, s, pos, acc, i + 1, pos + |Count(i + 1)|, Canon(x), next);
  }

  /** One present field: its number, then its value, then the fields after it. */
  lemma {:induction false} FieldRoundTrip(reg: Registry, v: Value, i: nat, s: seq<byte>, pos: nat)
    requires v.Record? && i < |v.fields| && WellFormed(reg, v) && !Skipped(v.fields[i])
    requires At(s, pos, EncodeFields(v, i) + Count(0))
    ensures DecodeCount(s, pos) == Success((i + 1, pos + |Count(i + 1)|))
    ensures DecodeValue(reg, s, pos + |Count(i + 1)|)
         == Success((Canon(v.fields[i].value), pos + |Count(i + 1)| + |Encode(v.fields[i].value)|))
    ensures At(s, pos + |Count(i + 1)| + |Encode(v.fields[i].value)|, EncodeFields(v, i + 1) + Count(0))
    ensures |EncodeFields(v, i)| == |Count(i + 1)| + |Encode(v.fields[i].value)| + |EncodeFields(v, i + 1)|
    decreases v, 0, 0
  {
    var x := v.fields[i].value;
    var id, e, rest := Count(i + 1), Encode(x), EncodeFields(v, i + 1);
    FieldWellFormed(reg, v, i);
    PresentFieldEncoding(v, i, Count(0));
    AtSplit(s, pos, id, e, rest + Count(0));
    CountRoundTrip(i + 1, s, pos);
    var end := RoundTrip(reg, x, s, pos + |id|);
  }

  lemma FieldWellFormed(reg: Registry, v: Value, i: nat)
    requires v.Record? && i < |v.fields| && WellFormed(reg, v) && v.fields[i].Some?
    ensures v.fields[i].value < v && WellFormed(reg, v.fields[i].value)
  {
    assert v.fields[i] in v.fields;
  }

  /** A skipped field writes nothing; a present one its number and its value. */
  lemma FieldEncoding(v: Value, i: nat)
    requires v.Record? && i < |v.fields|
    ensures Skipped(v.fields[i]) ==> EncodeFields(v, i) == EncodeFields(v, i + 1)
    ensures !Skipped(v.fields[i]) ==>
      EncodeFields(v, i) == Count(i + 1) + (Encode(v.fields[i].value) + EncodeFields(v, i + 1))
  {
    if !Skipped(v.fields[i]) {
      AppendAssoc(Count(i + 1), Encode(v.fields[i].value), EncodeFields(v, i + 1));
    }
  }

  /** A present field is written as its number, its value, then the rest. */
  lemma PresentFieldEncoding(v: Value, i: nat, tail: seq<byte>)
    requires v.Record? && i < |v.fields| && !Skipped(v.fields[i])
    ensures EncodeFields(v, i) + tail == Count(i + 1) + Encode(v.fields[i].value) + (EncodeFields(v, i + 1) + tail)
  {
    var id, e, rest := Count(i + 1), Encode(v.fields[i].value), EncodeFields(v, i + 1);
    assert EncodeFields(v, i) == id + e + rest;
    assert (id + e + rest) + tail == id + e + (rest + tail);
  }
}

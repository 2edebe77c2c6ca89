/** The contract of the tests: the enumeration `PriceType` and the record
    types `Expiration`, `Stock`, `Bond`, `Price` and the exception
    `UnknownInstrumentsException`, registered with the serializer, and what
    `copy` gives back for the objects `localSerializerTest` builds. A copy
    is `Canon` of the original (`LocalSerializer.Copy`), so each claim below
    is stated about `Canon`. */
module Contract {
  import opened Primitives
  import Utf8
  import opened Serializer

  const PriceTypeTag: nat := FirstUserTag
  const ExpirationTag: nat := FirstUserTag + 1
  const StockTag: nat := FirstUserTag + 2
  const BondTag: nat := FirstUserTag + 3
  const PriceTag: nat := FirstUserTag + 4
  const UnknownInstrumentsExceptionTag: nat := FirstUserTag + 5

  /** The types in tag order; each record lists its fields in the order of
      their field numbers. */
  const Types: Registry := [
    EnumDesc("PriceType", ["BID", "ASK"]),
    ClassDesc("Expiration", ["year", "month", "day"], false),
    ClassDesc("Stock", ["id", "name", "paysDividend"], false),
    ClassDesc("Bond", ["id", "name", "coupon", "expiration"], false),
    ClassDesc("Price", ["instrumentId", "type", "value"], false),
    ClassDesc("UnknownInstrumentsException", ["instrumentIds", "comment", "dump"], true)
  ]

  const BID: Value := Enum(PriceTypeTag, 0)
  const ASK: Value := Enum(PriceTypeTag, 1)

  /** The `number` of an enumeration constant. */
  function Number(e: Value): nat
    requires e.Enum?
  {
    e.ordinal
  }

  /** The `name` of a registered enumeration constant. */
  function Name(e: Value): string
    requires e.Enum? && WellFormed(Types, e)
  {
    DescOf(Types, e.tag).constants[e.ordinal]
  }

  /** A JavaScript string literal of the tests as its code units. */
  function Text(s: string): (t: seq<Utf8.CodeUnit>)
    requires forall i | 0 <= i < |s| :: s[i] as int < 0x1_0000
    ensures |t| == |s|
  {
    seq(|s|, i requires 0 <= i < |s| => s[i] as int)
  }

  /** A string of the tests is short enough for its length prefix. */
  lemma TextWellFormed(s: string)
    requires forall i | 0 <= i < |s| :: s[i] as int < 0x1_0000
    requires |s| < 0x1000_0000
    ensures WellFormed(Types, Str(Text(s)))
  {
    Utf8.EncodeLength(Text(s));
  }

  function Expiration(year: int32, month: int32, day: int32): Value {
    Record(ExpirationTag, [Some(Int(year)), Some(Int(month)), Some(Int(day))])
  }

  function Stock(id: Option<Value>, name: Option<Value>, paysDividend: Option<Value>): Value {
    Record(StockTag, [id, name, paysDividend])
  }

  /** A bond without coupon: the coupon is a floating-point `JsDouble`. */
  function Bond(expiration: Value): Value {
    Record(BondTag, [None, None, None, Some(expiration)])
  }

  function Price(instrumentId: Option<Value>, kind: Option<Value>, value: Option<Value>): Value {
    Record(PriceTag, [instrumentId, kind, value])
  }

  function UnknownInstrumentsException(instrumentIds: Option<Value>, comment: Option<Value>, dump: Option<Value>): Value {
    Record(UnknownInstrumentsExceptionTag, [instrumentIds, comment, dump])
  }

  /** `enumTest`: ASK has number 1 and name "ASK", and is a different
      constant from BID. */
  lemma PriceTypeConstants()
    ensures WellFormed(Types, ASK) && WellFormed(Types, BID)
    ensures Number(ASK) == 1 && Name(ASK) == "ASK"
    ensures Number(BID) == 0 && Name(BID) == "BID"
    ensures ASK != BID
  {
  }

  /** A copied value that is neither a list nor a record is the value itself:
      null, true and false, integers, strings, byte arrays, and enumeration
      constants with the same type and number. */
  lemma ScalarCopyIdentical(v: Value)
    requires !v.List? && !v.Record?
    ensures Canon(v) == v
  {
  }

  /** The lists of localSerializerTest copy element by element. */
  lemma ListsCopy()
    ensures Clean(List([])) && Canon(List([])) == List([])
    ensures Clean(List([Int(12)])) && Canon(List([Int(12)])) == List([Int(12)])
    ensures Clean(List([Int(12), Bool(true), Str(Text("bla"))]))
    ensures Canon(List([Int(12), Bool(true), Str(Text("bla"))])) == List([Int(12), Bool(true), Str(Text("bla"))])
  {
    ListClean([]);
    ListClean([Int(12)]);
    TextClean("bla");
    ListClean([Int(12), Bool(true), Str(Text("bla"))]);
  }

  /** A value the serializer can write and that holds no null field: one
      a copy gives back unchanged. */
  predicate Clean(v: Value) {
    WellFormed(Types, v) && NullFree(v)
  }

  /** A field that is absent or holds a clean non-null value. */
  predicate FieldClean(f: Option<Value>) {
    f.Some? ==> !f.value.Null? && Clean(f.value)
  }

  /** A registered record whose fields are clean is clean, and copies to
      itself. */
  lemma RecordClean(tag: nat, fields: seq<Option<Value>>)
    requires IsUserTag(Types, tag) && DescOf(Types, tag).ClassDesc?
    requires |fields| == |DescOf(Types, tag).fields|
    requires forall i | 0 <= i < |fields| :: FieldClean(fields[i])
    ensures Clean(Record(tag, fields)) && Canon(Record(tag, fields)) == Record(tag, fields)
  {
    var v := Record(tag, fields);
    assert |Types| == 6;
    assert NullFree(v) by {
      forall i | 0 <= i < |fields| && fields[i].Some?
        ensures fields[i] in fields && !fields[i].value.Null? && NullFree(fields[i].value)
      {
      }
    }
    CanonOfNullFree(v);
  }

  /** A registered record of three clean fields is clean, and copies to
      itself. */
  lemma Record3Clean(tag: nat, a: Option<Value>, b: Option<Value>, c: Option<Value>)
    requires IsUserTag(Types, tag) && DescOf(Types, tag).ClassDesc? && |DescOf(Types, tag).fields| == 3
    requires FieldClean(a) && FieldClean(b) && FieldClean(c)
    ensures Clean(Record(tag, [a, b, c])) && Canon(Record(tag, [a, b, c])) == Record(tag, [a, b, c])
  {
    var fields := [a, b, c];
    assert forall i | 0 <= i < 3 :: fields[i] == a || fields[i] == b || fields[i] == c;
    RecordClean(tag, fields);
  }

  /** A list of clean values is clean, and copies to itself. */
  lemma ListClean(items: seq<Value>)
    requires |items| < TwoTo32
    requires forall i | 0 <= i < |items| :: Clean(items[i])
    ensures Clean(List(items)) && Canon(List(items)) == List(items)
  {
    CanonOfNullFree(List(items));
  }

  /** A string of the tests is clean. */
  lemma TextClean(s: string)
    requires forall i | 0 <= i < |s| :: s[i] as int < 0x1_0000
    requires |s| < 0x1000_0000
    ensures Clean(Str(Text(s))) && !Str(Text(s)).Null?
  {
    TextWellFormed(s);
  }

  /** The stock of localSerializerTest, with the given dividend flag. */
  function IbmStock(paysDividend: Value): Value {
    Stock(Some(Str(Text("1344"))), Some(Str(Text("IBM"))), Some(paysDividend))
  }

  /** The stock keeps id "1344", name "IBM" and a dividend flag true or
      false. */
  lemma StockCopies(paysDividend: bool)
    ensures WellFormed(Types, IbmStock(Bool(paysDividend)))
    ensures Canon(IbmStock(Bool(paysDividend))) == IbmStock(Bool(paysDividend))
  {
    TextClean("1344");
    TextClean("IBM");
    assert |Types| == 6;
    Record3Clean(StockTag, Some(Str(Text("1344"))), Some(Str(Text("IBM"))), Some(Bool(paysDividend)));
  }

  /** The null dividend flag is written as null and read back as absent. */
  lemma NullDividendCopies()
    ensures WellFormed(Types, IbmStock(Null))
    ensures Canon(IbmStock(Null)) == Stock(Some(Str(Text("1344"))), Some(Str(Text("IBM"))), None)
  {
    TextClean("1344");
    TextClean("IBM");
    assert |Types| == 6;
    NullLastField(StockTag, Some(Str(Text("1344"))), Some(Str(Text("IBM"))));
  }

  /** A record of three fields whose last one holds null reads back with
      that field absent and the other two unchanged. */
  lemma NullLastField(tag: nat, a: Option<Value>, b: Option<Value>)
    requires IsUserTag(Types, tag) && DescOf(Types, tag).ClassDesc? && |DescOf(Types, tag).fields| == 3
    requires FieldClean(a) && FieldClean(b)
    ensures WellFormed(Types, Record(tag, [a, b, Some(Null)]))
    ensures Canon(Record(tag, [a, b, Some(Null)])) == Record(tag, [a, b, None])
  {
    var v := Record(tag, [a, b, Some(Null)]);
    assert forall i | 0 <= i < 3 :: v.fields[i] in v.fields;
    CanonShape(v);
    if a.Some? { CanonOfNullFree(a.value); }
    if b.Some? { CanonOfNullFree(b.value); }
    assert Canon(v).fields == [a, b, None];
  }

  /** A bond keeps its nested expiration date field by field. */
  lemma BondCopies(year: int32, month: int32, day: int32)
    ensures Clean(Bond(Expiration(year, month, day)))
    ensures Canon(Bond(Expiration(year, month, day))) == Bond(Expiration(year, month, day))
  {
    assert |Types| == 6;
    Record3Clean(ExpirationTag, Some(Int(year)), Some(Int(month)), Some(Int(day)));
    RecordClean(BondTag, Bond(Expiration(year, month, day)).fields);
  }

  /** The instrument ids of the exception, "a" and "b". */
  function Ids(): Value {
    List([Str(Text("a")), Str(Text("b"))])
  }

  /** The exception keeps its list of instrument ids, its comment (a bond)
      and its dump, an empty byte array. */
  lemma ExceptionCopies()
    ensures WellFormed(Types, UnknownInstrumentsException(Some(Ids()), Some(Bond(Expiration(2013, 2, 20))), Some(Bytes([]))))
    ensures Canon(UnknownInstrumentsException(Some(Ids()), Some(Bond(Expiration(2013, 2, 20))), Some(Bytes([]))))
         == UnknownInstrumentsException(Some(Ids()), Some(Bond(Expiration(2013, 2, 20))), Some(Bytes([])))
  {
    BondCopies(2013, 2, 20);
    TextClean("a");
    TextClean("b");
    ListClean(Ids().items);
    assert FieldClean(Some(Bytes([])));
    assert |Types| == 6;
    Record3Clean(UnknownInstrumentsExceptionTag, Some(Ids()), Some(Bond(Expiration(2013, 2, 20))), Some(Bytes([])));
  }

  /** A price keeps its instrument id, its enumeration constant and its value. */
  lemma PriceCopies()
    ensures WellFormed(Types, Price(Some(Str(Text("123"))), Some(ASK), Some(Int(999))))
    ensures Canon(Price(Some(Str(Text("123"))), Some(ASK), Some(Int(999))))
         == Price(Some(Str(Text("123"))), Some(ASK), Some(Int(999)))
  {
    TextClean("123");
    assert |Types| == 6;
    Record3Clean(PriceTag, Some(Str(Text("123"))), Some(ASK), Some(Int(999)));
  }
}

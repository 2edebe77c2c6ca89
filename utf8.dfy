/** The text encoding of `writeUtf8` and `readUtf8(n)`: the one-, two- and
    three-byte forms of UTF-8 applied to each UTF-16 code unit of a
    JavaScript string on its own. Surrogate units (U+D800..U+DFFF) are
    therefore encoded one by one as three bytes each (CESU-8 style), which
    section 3 of RFC 3629 forbids. No length is written; the reader is told
    how many bytes to consume. */
module Utf8 {
  import opened Primitives

  /** One element of a JavaScript string, as `charCodeAt` returns it. */
  type CodeUnit = c: int | 0 <= c < 0x1_0000

  /** The byte count of the UTF-8 form of a code unit up to U+FFFF. */
  function UnitLength(c: CodeUnit): nat {
    if c <= 0x7F then 1 else if c <= 0x7FF then 2 else 3
  }

  predicate IsContinuation(b: byte) {
    0x80 <= b < 0xC0
  }

  /** 0xxxxxxx, 110xxxxx 10xxxxxx or 1110xxxx 10xxxxxx 10xxxxxx. */
  function EncodeUnit(c: CodeUnit): (b: seq<byte>)
    ensures |b| == UnitLength(c)
    ensures !IsContinuation(b[0]) && b[0] < 0xF0
    ensures forall i :: 1 <= i < |b| ==> IsContinuation(b[i])
  {
    if c < 0x80 then [c]
    else if c < 0x800 then [0xC0 + c / 0x40, 0x80 + c % 0x40]
    else [0xE0 + c / 0x1000, 0x80 + (c / 0x40) % 0x40, 0x80 + c % 0x40]
  }

  /** No byte from 0xF0 up: no lead byte of a four-byte form and none that
      UTF-8 never uses. */
  predicate BelowF0(b: seq<byte>) {
    forall k | 0 <= k < |b| :: b[k] < 0xF0
  }

  /** The encoding is empty only for the empty text, and a four-byte form
      never appears in it. */
  function Encode(s: seq<CodeUnit>): (b: seq<byte>)
    ensures b == [] <==> s == []
    ensures BelowF0(b)
  {
    if s == [] then [] else EncodeUnit(s[0]) + Encode(s[1..])
  }

  /** The sum of the units' lengths: the size `writeUtf8` adds to the buffer. */
  function EncodedLength(s: seq<CodeUnit>): nat {
    if s == [] then 0 else UnitLength(s[0]) + EncodedLength(s[1..])
  }

  /** Decodes the code unit at index i of a block ending at end, rejecting
      stray continuation bytes, sequences cut off by the end of the block,
      over-long forms and lead bytes of four-byte forms (which lie beyond
      U+FFFF). Gives the unit and the index after it. */
  function DecodeUnit(s: seq<byte>, i: nat, end: nat): (r: Result<(CodeUnit, nat)>)
    requires i < end <= |s|
    ensures r.Success? ==> i < r.value.1 <= end
    ensures r.Failure? ==> r.error == MalformedUtf8
  {
    var b0: int := s[i];
    if b0 < 0x80 then Success((b0, i + 1))
    else if b0 < 0xC0 then Failure(MalformedUtf8)
    else if b0 < 0xE0 then
      if end < i + 2 || !IsContinuation(s[i + 1]) then Failure(MalformedUtf8)
      else
        var c := (b0 - 0xC0) * 0x40 + (s[i + 1] as int - 0x80);
        if c < 0x80 then Failure(MalformedUtf8) else Success((c, i + 2))
    else if b0 < 0xF0 then
      if end < i + 3 || !IsContinuation(s[i + 1]) || !IsContinuation(s[i + 2]) then Failure(MalformedUtf8)
      else
        var c := (b0 - 0xE0) * 0x1000 + (s[i + 1] as int - 0x80) * 0x40 + (s[i + 2] as int - 0x80);
        if c < 0x800 then Failure(MalformedUtf8) else Success((c, i + 3))
    else Failure(MalformedUtf8)
  }

  /** Decodes the whole block from i to end, one code unit after the other:
      a block that decodes has at most one unit per byte and does not start
      with a continuation byte. */
  function Decode(s: seq<byte>, i: nat, end: nat): (r: Result<seq<CodeUnit>>)
    requires i <= end <= |s|
    ensures r.Failure? ==> r.error == MalformedUtf8
    ensures r.Success? ==> |r.value| <= end - i
    ensures r.Success? && i < end ==> !IsContinuation(s[i])
    decreases end - i
  {
    if i == end then Success([])
    else
      var unit :- DecodeUnit(s, i, end);
      var c, next := unit.0, unit.1;
      var rest :- Decode(s, next, end);
      Success([c] + rest)
  }

  /** A decoded prefix in front of the rest of a decoding. A block is
      delimited by its end and its decoding gives no end position, so this is
      `Primitives.Prefixed` without the position. */
  function Prepend<T>(prefix: seq<T>, r: Result<seq<T>>): (p: Result<seq<T>>)
    ensures p.Success? <==> r.Success?
    ensures p.Success? ==> p.value == prefix + r.value
  {
    match r
    case Success(rest) => Success(prefix + rest)
    case Failure(e) => Failure(e)
  }

  lemma PrependTwice<T>(a: seq<T>, b: seq<T>, r: Result<seq<T>>)
    ensures Prepend(a, Prepend(b, r)) == Prepend(a + b, r)
  {
    if r.Success? {
      assert a + (b + r.value) == (a + b) + r.value;
    }
  }

  lemma PrependNothing<T>(r: Result<seq<T>>)
    ensures Prepend([], r) == r
  {
    if r.Success? {
      assert [] + r.value == r.value;
    }
  }

  /** The loop of `readUtf8` after the code units in text: the next unit
      either joins them or, when it is not well formed, fails the whole read. */
  lemma DecodeAdvance(s: seq<byte>, start: nat, i: nat, end: nat, text: seq<CodeUnit>)
    requires start <= i < end <= |s|
    requires Decode(s, start, end) == Prepend(text, Decode(s, i, end))
    ensures DecodeUnit(s, i, end).Failure? ==> Decode(s, start, end) == Failure(MalformedUtf8)
    ensures DecodeUnit(s, i, end).Success? ==>
      Decode(s, start, end) == Prepend(text + [DecodeUnit(s, i, end).value.0], Decode(s, DecodeUnit(s, i, end).value.1, end))
  {
    if DecodeUnit(s, i, end).Success? {
      var c, next := DecodeUnit(s, i, end).value.0, DecodeUnit(s, i, end).value.1;
      PrependTwice(text, [c], Decode(s, next, end));
    }
  }

  /** The size of the encoding follows each code unit's range: U+0000..U+007F
      take one byte (so U+0000 is never the two-byte form), U+0080..U+07FF two
      and U+0800..U+FFFF three. */
  lemma {:induction false} EncodeLength(s: seq<CodeUnit>)
    ensures |Encode(s)| == EncodedLength(s)
    ensures |s| <= EncodedLength(s) <= 3 * |s|
  {
    if s != [] {
      EncodeLength(s[1..]);
    }
  }

  lemma {:induction false} EncodeAppend(s: seq<CodeUnit>, t: seq<CodeUnit>)
    ensures Encode(s + t) == Encode(s) + Encode(t)
  {
    if s != [] {
      assert (s + t)[0] == s[0] && (s + t)[1..] == s[1..] + t;
      EncodeAppend(s[1..], t);
      calc {
        Encode(s + t);
        EncodeUnit(s[0]) + Encode(s[1..] + t);
        EncodeUnit(s[0]) + (Encode(s[1..]) + Encode(t));
        (EncodeUnit(s[0]) + Encode(s[1..])) + Encode(t);
      }
    } else {
      assert s + t == t;
    }
  }

  /** The three six-bit groups of a code unit put back together. */
  lemma ThreeGroups(c: CodeUnit)
    ensures c == (c / 0x1000) * 0x1000 + ((c / 0x40) % 0x40) * 0x40 + c % 0x40
  {
    var q1, r1 := c / 0x40, c % 0x40;
    var q2, r2 := q1 / 0x40, q1 % 0x40;
    assert c == q2 * 0x1000 + (r2 * 0x40 + r1);
    DivModUnique(c, 0x1000, q2, r2 * 0x40 + r1);
  }

  /** A unit's bytes, wherever they stand inside a block, decode to the unit. */
  lemma UnitRoundTrip(c: CodeUnit, s: seq<byte>, i: nat, end: nat)
    requires At(s, i, EncodeUnit(c)) && i + UnitLength(c) <= end <= |s|
    ensures DecodeUnit(s, i, end) == Success((c, i + UnitLength(c)))
  {
    var e := EncodeUnit(c);
    assert s[i] == e[0] by { AtHead(s, i, e); }
    if c >= 0x800 {
      assert s[i + 1] == e[1] && s[i + 2] == e[2];
      ThreeGroups(c);
      assert s[i] as int - 0xE0 == c / 0x1000;
      assert s[i + 1] as int - 0x80 == (c / 0x40) % 0x40;
      assert s[i + 2] as int - 0x80 == c % 0x40;
    } else if c >= 0x80 {
      assert s[i + 1] == e[1];
      assert s[i] as int - 0xC0 == c / 0x40;
      assert s[i + 1] as int - 0x80 == c % 0x40;
    }
  }

  /** A decoded unit was written in exactly the bytes it was read from. */
  lemma UnitExact(s: seq<byte>, i: nat, end: nat)
    requires i < end <= |s| && DecodeUnit(s, i, end).Success?
    ensures DecodeUnit(s, i, end).value.1 == i + UnitLength(DecodeUnit(s, i, end).value.0)
    ensures At(s, i, EncodeUnit(DecodeUnit(s, i, end).value.0))
  {
    var c, next := DecodeUnit(s, i, end).value.0, DecodeUnit(s, i, end).value.1;
    var b0: int := s[i];
    if next == i + 2 {
      var b1: int := s[i + 1];
      DivModUnique(c, 0x40, b0 - 0xC0, b1 - 0x80);
      assert EncodeUnit(c) == [s[i], s[i + 1]];
    } else if next == i + 3 {
      var b1: int, b2: int := s[i + 1], s[i + 2];
      DivModUnique(c, 0x1000, b0 - 0xE0, (b1 - 0x80) * 0x40 + (b2 - 0x80));
      DivModUnique(c, 0x40, (b0 - 0xE0) * 0x40 + (b1 - 0x80), b2 - 0x80);
      DivModUnique(c / 0x40, 0x40, b0 - 0xE0, b1 - 0x80);
      assert EncodeUnit(c) == [s[i], s[i + 1], s[i + 2]];
    } else {
      assert EncodeUnit(c) == [s[i]];
    }
  }

  lemma EncodeCons(c: CodeUnit, text: seq<CodeUnit>)
    ensures Encode([c] + text) == EncodeUnit(c) + Encode(text)
  {
    assert ([c] + text)[0] == c && ([c] + text)[1..] == text;
  }

  /** One more code unit adds its own bytes at the end. */
  lemma EncodeSnoc(text: seq<CodeUnit>, c: CodeUnit)
    ensures Encode(text + [c]) == Encode(text) + EncodeUnit(c)
  {
    EncodeAppend(text, [c]);
    EncodeCons(c, []);
    assert [c] + [] == [c];
  }

  /** `readUtf8` with the byte count `writeUtf8` produced, wherever the bytes
      stand, returns the original string. */
  lemma {:induction false} RoundTrip(text: seq<CodeUnit>, s: seq<byte>, i: nat)
    requires At(s, i, Encode(text))
    ensures Decode(s, i, i + |Encode(text)|) == Success(text)
    decreases |text|
  {
    var end := i + |Encode(text)|;
    if text != [] {
      var c, tail := text[0], text[1..];
      assert text == [c] + tail;
      EncodeCons(c, tail);
      AtAppend(s, i, EncodeUnit(c), Encode(tail));
      UnitRoundTrip(c, s, i, end);
      RoundTrip(tail, s, i + UnitLength(c));
    }
  }

  /** Conversely, a block decodes only to the string whose encoding it holds:
      the encoding is unique and the decoder accepts nothing else. */
  lemma {:induction false} DecodeExact(s: seq<byte>, i: nat, end: nat)
    requires i <= end <= |s| && Decode(s, i, end).Success?
    ensures |Encode(Decode(s, i, end).value)| == end - i
    ensures At(s, i, Encode(Decode(s, i, end).value))
    decreases end - i
  {
    if i < end {
      var c, next := DecodeUnit(s, i, end).value.0, DecodeUnit(s, i, end).value.1;
      var tail := Decode(s, next, end).value;
      DecodeExact(s, next, end);
      UnitExact(s, i, end);
      EncodeCons(c, tail);
      AtAppend(s, i, EncodeUnit(c), Encode(tail));
    }
  }

  /** A block decodes to a string exactly when it is that string's encoding. */
  lemma DecodeIff(s: seq<byte>, i: nat, end: nat, text: seq<CodeUnit>)
    requires i <= end <= |s|
    ensures Decode(s, i, end) == Success(text) <==> s[i..end] == Encode(text)
  {
    var e := Encode(text);
    if Decode(s, i, end) == Success(text) {
      DecodeExact(s, i, end);
      assert i + |e| == end;
      AtSlice(s, i, e);
    }
    if s[i..end] == e {
      assert i + |e| == end;
      AtSlice(s, i, e);
      RoundTrip(text, s, i);
    }
  }

  /** `readUtf8(n)` at pos: out-of-data when fewer than n bytes remain,
      otherwise the decoding of exactly the next n bytes and the position
      after them. */
  function ReadFrom(s: seq<byte>, pos: nat, n: nat): (r: Result<(seq<CodeUnit>, nat)>)
    ensures r.Success? ==> r.value.1 == pos + n <= |s|
    ensures pos + n > |s| ==> r == Failure(OutOfData)
  {
    if pos + n > |s| then Failure(OutOfData)
    else
      var text :- Decode(s, pos, pos + n);
      Success((text, pos + n))
  }

  /** Writing a string and reading back its encoded length, whatever
      surrounds it, gives the string and moves past exactly those bytes. */
  lemma ReadRoundTrip(text: seq<CodeUnit>, s: seq<byte>, pos: nat)
    requires At(s, pos, Encode(text))
    ensures ReadFrom(s, pos, |Encode(text)|) == Success((text, pos + |Encode(text)|))
  {
    RoundTrip(text, s, pos);
  }
}

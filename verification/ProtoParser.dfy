/** The Protocol Buffers wire parser of client/proto_parser.py. */
module ProtoParser {
  import opened Bytes

  datatype Value = Int(n: nat) | Raw(data: bytes)

  datatype Field = Field(number: nat, wireType: nat, value: Value)

  /** A number read from the front of some bytes; `whole` unless the bytes ended before its last byte. */
  datatype Number = Number(value: nat, used: nat, whole: bool)

  function ReadVarint(d: bytes): (r: Number)
    ensures r.used <= |d| && (d != [] ==> r.used >= 1)
  {
    if d == [] then Number(0, 0, false)
    else if d[0] < 128 then Number(d[0] as nat, 1, true)
    else
      var rest := ReadVarint(d[1..]);
      Number(d[0] as nat - 128 + 128 * rest.value, 1 + rest.used, rest.whole)
  }

  /** A field at the front of some bytes. `used` may lie beyond the end, when the value is cut short. */
  datatype Parsed = Parsed(field: Field, used: nat, whole: bool)

  /** Python's `d[:n]`. */
  function Front(d: bytes, n: nat): bytes {
    if n <= |d| then d[..n] else d
  }

  /** A value of `size` bytes at the front of `body`, which starts `skipped` bytes behind the tag. */
  function RawValue(tag: Number, skipped: nat, whole: bool, body: bytes, size: nat): Parsed {
    var field := Field(tag.value / 8, tag.value % 8, Raw(Front(body, size)));
    Parsed(field, tag.used + skipped + size, whole && size <= |body|)
  }

  /** The value behind a tag; None for a wire type the parser does not know. */
  function ParseValue(tag: Number, rest: bytes): (r: Option<Parsed>)
    ensures r.Some? ==> r.value.used >= tag.used && (r.value.whole ==> r.value.used <= tag.used + |rest|)
  {
    if tag.value % 8 == 0 then
      var n := ReadVarint(rest);
      Some(Parsed(Field(tag.value / 8, 0, Int(n.value)), tag.used + n.used, tag.whole && n.whole))
    else if tag.value % 8 == 2 then
      var len := ReadVarint(rest);
      Some(RawValue(tag, len.used, tag.whole && len.whole, rest[len.used..], len.value))
    else if tag.value % 8 == 1 then Some(RawValue(tag, 0, tag.whole, rest, 8))
    else if tag.value % 8 == 5 then Some(RawValue(tag, 0, tag.whole, rest, 4))
    else None
  }

  function ParseField(d: bytes): (r: Option<Parsed>)
    requires d != []
    ensures r.Some? ==> r.value.used >= 1 && (r.value.whole ==> r.value.used <= |d|)
  {
    ParseValue(ReadVarint(d), d[ReadVarint(d).used..])
  }

  function Behind(d: bytes, n: nat): bytes {
    if n <= |d| then d[n..] else []
  }

  function Parse(d: bytes): seq<Field>
    decreases |d|
  {
    if d == [] then []
    else
      match ParseField(d)
      case None => []
      case Some(p) => [p.field] + Parse(Behind(d, p.used))
  }

  /** The bytes are a list of whole fields of known types. */
  predicate Complete(d: bytes)
    decreases |d|
  {
    d == [] || (ParseField(d).Some? && ParseField(d).value.whole && Complete(d[ParseField(d).value.used..]))
  }

  // ---------- The loops of the source ----------

  /** `x << k`. */
  function Shl(x: nat, k: nat): nat {
    if k == 0 then x else 2 * Shl(x, k - 1)
  }

  lemma ShlSeven(x: nat)
    ensures Shl(x, 7) == 128 * x
  {
    assert Shl(x, 1) == 2 * x;
    assert Shl(x, 3) == 2 * Shl(x, 2) == 4 * Shl(x, 1);
    assert Shl(x, 5) == 2 * Shl(x, 4) == 4 * Shl(x, 3);
    assert Shl(x, 7) == 2 * Shl(x, 6) == 4 * Shl(x, 5);
  }

  lemma {:induction false} ShlAdds(x: nat, y: nat, k: nat)
    ensures Shl(x + 128 * y, k) == Shl(x, k) + Shl(y, k + 7)
    ensures x < 128 ==> Shl(1, k) + Shl(x, k) <= Shl(1, k + 7)
    decreases k
  {
    if k == 0 {
      ShlSeven(y);
      ShlSeven(1);
    } else {
      ShlAdds(x, y, k - 1);
    }
  }

  /** `read_varint`: the bits added lie above those already there (`value < 1 << shift`), so `|=` adds. */
  method ReadVarintLoop(data: bytes, offset: nat) returns (value: nat, consumed: nat)
    requires offset <= |data|
    ensures value == ReadVarint(data[offset..]).value && consumed == ReadVarint(data[offset..]).used
  {
    var shift := 0;
    var pos := offset;
    value := 0;
    while pos < |data|
      invariant offset <= pos <= |data| && value < Shl(1, shift)
      invariant ReadVarint(data[offset..]).value == value + Shl(ReadVarint(data[pos..]).value, shift)
      invariant ReadVarint(data[offset..]).used == pos - offset + ReadVarint(data[pos..]).used
    {
      var b := data[pos] as nat;
      VarintStep(data, pos);
      ShlAdds(b % 128, if b < 128 then 0 else ReadVarint(data[pos + 1..]).value, shift);
      value := value + Shl(b % 128, shift);
      pos := pos + 1;
      if b < 128 {
        return value, pos - offset;
      }
      shift := shift + 7;
    }
    ShlZero(shift);
    consumed := pos - offset;
  }

  lemma {:induction false} ShlZero(k: nat)
    ensures Shl(0, k) == 0
  {
    if k > 0 {
      ShlZero(k - 1);
    }
  }

  lemma VarintStep(data: bytes, pos: nat)
    requires pos < |data|
    ensures var r, rest := ReadVarint(data[pos..]), ReadVarint(data[pos + 1..]);
            if data[pos] < 128 then r.value == data[pos] as nat % 128 && r.used == 1
            else r.value == data[pos] as nat % 128 + 128 * rest.value && r.used == 1 + rest.used
  {
    assert data[pos..][1..] == data[pos + 1..];
  }

  /** The value behind a tag of wire type `wire`, at `start`. */
  method ParseValueAt(data: bytes, start: nat, tag: nat, consumed: nat, ghost whole: bool)
    returns (field: Option<Field>, next: nat)
    requires consumed <= start <= |data|
    ensures match ParseValue(Number(tag, consumed, whole), data[start..])
            case None => field.None?
            case Some(p) => field == Some(p.field) && next - start == p.used - consumed
  {
    next := start;
    var number, wire := tag / 8, tag % 8;
    if wire == 0 {
      var n, used := ReadVarintLoop(data, next);
      return Some(Field(number, wire, Int(n))), next + used;
    } else if wire == 2 {
      var length, used := ReadVarintLoop(data, next);
      assert data[start..][used..] == data[next + used..];
      next := next + used;
      return Some(Field(number, wire, Raw(Front(data[next..], length)))), next + length;
    } else if wire == 1 {
      return Some(Field(number, wire, Raw(Front(data[next..], 8)))), next + 8;
    } else if wire == 5 {
      return Some(Field(number, wire, Raw(Front(data[next..], 4)))), next + 4;
    }
    return None, next;
  }

  lemma ParseStep(d: bytes, tag: Number, rest: bytes)
    requires d != [] && tag == ReadVarint(d) && rest == d[tag.used..]
    ensures ParseValue(tag, rest).None? ==> Parse(d) == []
    ensures ParseValue(tag, rest).Some? ==>
              var p := ParseValue(tag, rest).value;
              p.used >= 1 && Parse(d) == [p.field] + Parse(Behind(d, p.used))
  {
    assert ParseField(d) == ParseValue(tag, rest);
  }

  lemma BehindBehind(data: bytes, start: nat, used: nat)
    requires start <= |data|
    ensures Behind(data[start..], used) == Behind(data, start + used)
  {
  }

  /** The field at `start`. */
  method ParseFieldAt(data: bytes, start: nat) returns (field: Option<Field>, next: nat)
    requires start < |data|
    ensures match ParseField(data[start..])
            case None => field.None?
            case Some(p) => field == Some(p.field) && next == start + p.used
  {
    var tag, consumed := ReadVarintLoop(data, start);
    ghost var number := ReadVarint(data[start..]);
    DropDrop(data, start, consumed);
    field, next := ParseValueAt(data, start + consumed, tag, consumed, number.whole);
  }

  /** One turn of the parse loop. */
  method ParseNext(data: bytes, start: nat) returns (field: Option<Field>, next: nat)
    requires start < |data|
    ensures field.None? ==> Parse(data[start..]) == []
    ensures field.Some? ==> next > start && Parse(data[start..]) == [field.value] + Parse(Behind(data, next))
  {
    field, next := ParseFieldAt(data, start);
    ghost var parsed := ParseField(data[start..]);
    if field.None? {
      ParseNone(data[start..]);
    } else {
      BehindBehind(data, start, parsed.value.used);
      ParseSome(data[start..], parsed.value, Behind(data, next));
    }
  }

  lemma DropDrop(data: bytes, a: nat, b: nat)
    requires a + b <= |data|
    ensures data[a..][b..] == data[a + b..]
  {
  }

  lemma ParseNone(d: bytes)
    requires d != [] && ParseField(d).None?
    ensures Parse(d) == []
  {
  }

  lemma ParseSome(d: bytes, p: Parsed, tail: bytes)
    requires d != [] && ParseField(d) == Some(p) && tail == Behind(d, p.used)
    ensures p.used >= 1 && Parse(d) == [p.field] + Parse(tail)
  {
  }

  method ParseMessage(data: bytes) returns (fields: seq<Field>)
    ensures fields == Parse(data)
  {
    fields := [];
    var offset: nat := 0;
    assert data[0..] == data && [] + Parse(data) == Parse(data);
    while offset < |data|
      invariant Parse(data) == fields + Parse(Behind(data, offset))
      decreases |data| - offset
    {
      assert Behind(data, offset) == data[offset..];
      var field, next := ParseNext(data, offset);
      if field.None? {
        assert fields + [] == fields;
        return;
      }
      JoinFields(fields, [field.value], Parse(Behind(data, next)));
      fields := fields + [field.value];
      offset := next;
    }
    assert fields + [] == fields;
  }

  // ---------- Concatenation ----------

  lemma {:induction false} VarintExtends(d: bytes, e: bytes)
    requires ReadVarint(d).whole
    ensures ReadVarint(d + e) == ReadVarint(d)
    decreases |d|
  {
    assert d != [] && (d + e)[0] == d[0];
    if d[0] >= 128 {
      assert (d + e)[1..] == d[1..] + e;
      VarintExtends(d[1..], e);
    }
  }

  lemma ValueExtends(tag: Number, rest: bytes, e: bytes)
    requires ParseValue(tag, rest).Some? && ParseValue(tag, rest).value.whole
    ensures ParseValue(tag, rest + e) == ParseValue(tag, rest)
  {
    if tag.value % 8 == 0 {
      VarintExtends(rest, e);
    } else if tag.value % 8 == 2 {
      VarintExtends(rest, e);
      var len := ReadVarint(rest);
      assert (rest + e)[len.used..] == rest[len.used..] + e;
      FrontExtends(rest[len.used..], e, len.value);
    } else if tag.value % 8 == 1 {
      FrontExtends(rest, e, 8);
    } else {
      FrontExtends(rest, e, 4);
    }
  }

  lemma FrontExtends(d: bytes, e: bytes, size: nat)
    requires size <= |d|
    ensures Front(d + e, size) == Front(d, size)
  {
  }

  lemma FieldExtends(d: bytes, e: bytes)
    requires d != [] && ParseField(d).Some? && ParseField(d).value.whole
    ensures ParseField(d + e) == ParseField(d)
  {
    var tag := ReadVarint(d);
    assert tag.whole;
    VarintExtends(d, e);
    assert (d + e)[tag.used..] == d[tag.used..] + e;
    ValueExtends(tag, d[tag.used..], e);
  }

  lemma ParseWhole(d: bytes, p: Parsed, tail: bytes)
    requires d != [] && ParseField(d) == Some(p) && p.whole && tail == d[p.used..]
    ensures Parse(d) == [p.field] + Parse(tail)
    ensures Complete(d) <==> Complete(tail)
  {
  }

  /** The first field of a message with more behind it. */
  lemma WholeStep(d: bytes, e: bytes, p: Parsed, tail: bytes)
    requires d != [] && ParseField(d) == Some(p) && p.whole && tail == d[p.used..]
    ensures Parse(d + e) == [p.field] + Parse(tail + e)
    ensures Complete(d + e) <==> Complete(tail + e)
  {
    FieldExtends(d, e);
    DropInside(d, e, p.used);
    ParseWhole(d + e, p, tail + e);
  }

  lemma DropInside(d: bytes, e: bytes, n: nat)
    requires n <= |d|
    ensures (d + e)[n..] == d[n..] + e
  {
  }

  /** Parsing is a homomorphism: whatever follows a complete message is parsed as if it stood alone. */
  lemma {:induction false} ParseConcatenation(d: bytes, e: bytes)
    requires Complete(d)
    ensures Parse(d + e) == Parse(d) + Parse(e)
    decreases |d|
  {
    if d == [] {
      assert d + e == e && [] + Parse(e) == Parse(e);
    } else {
      var p, tail := ParseField(d).value, d[ParseField(d).value.used..];
      ParseConcatenation(tail, e);
      WholeStep(d, e, p, tail);
      ParseWhole(d, p, tail);
      JoinFields([p.field], Parse(tail), Parse(e));
    }
  }

  lemma JoinFields(a: seq<Field>, b: seq<Field>, c: seq<Field>)
    ensures a + (b + c) == (a + b) + c
  {
  }

  /** Complete messages in a row are a complete message. */
  lemma {:induction false} CompleteConcatenation(d: bytes, e: bytes)
    requires Complete(d) && Complete(e)
    ensures Complete(d + e)
    decreases |d|
  {
    if d == [] {
      assert d + e == e;
    } else {
      var p, tail := ParseField(d).value, d[ParseField(d).value.used..];
      CompleteConcatenation(tail, e);
      WholeStep(d, e, p, tail);
    }
  }

  // ---------- Round trip ----------

  function EncodeVarint(n: nat): bytes {
    if n < 128 then [n] else [n % 128 + 128] + EncodeVarint(n / 128)
  }

  /** A field as the wire format allows it. */
  predicate WellFormed(f: Field) {
    match f.value
    case Int(_) => f.wireType == 0
    case Raw(data) =>
      f.wireType == 2 || (f.wireType == 1 && |data| == 8) || (f.wireType == 5 && |data| == 4)
  }

  function EncodeField(f: Field): bytes {
    EncodeVarint(f.number * 8 + f.wireType) + EncodeValue(f)
  }

  function Encode(fs: seq<Field>): bytes {
    if fs == [] then [] else EncodeField(fs[0]) + Encode(fs[1..])
  }

  lemma {:induction false} VarintRoundTrip(n: nat)
    ensures ReadVarint(EncodeVarint(n)) == Number(n, |EncodeVarint(n)|, true)
  {
    if n >= 128 {
      VarintRoundTrip(n / 128);
      assert EncodeVarint(n)[1..] == EncodeVarint(n / 128);
    }
  }

  lemma NumberInFront(n: nat, body: bytes)
    ensures var t := EncodeVarint(n);
            ReadVarint(t + body) == Number(n, |t|, true) && (t + body)[|t|..] == body
  {
    VarintRoundTrip(n);
    VarintExtends(EncodeVarint(n), body);
  }

  function EncodeValue(f: Field): bytes {
    match f.value
    case Int(n) => EncodeVarint(n)
    case Raw(data) => if f.wireType == 2 then EncodeVarint(|data|) + data else data
  }

  lemma ValueRoundTrip(f: Field, tag: Number)
    requires WellFormed(f) && tag.value == f.number * 8 + f.wireType && tag.whole
    ensures ParseValue(tag, EncodeValue(f)) == Some(Parsed(f, tag.used + |EncodeValue(f)|, true))
  {
    assert tag.value / 8 == f.number && tag.value % 8 == f.wireType;
    match f.value {
      case Int(n) => VarintRoundTrip(n);
      case Raw(data) =>
        assert Front(data, |data|) == data;
        if f.wireType == 2 {
          NumberInFront(|data|, data);
        }
    }
  }

  lemma FieldRoundTrip(f: Field)
    requires WellFormed(f)
    ensures EncodeField(f) != [] && ParseField(EncodeField(f)) == Some(Parsed(f, |EncodeField(f)|, true))
  {
    var n := f.number * 8 + f.wireType;
    var tag := Number(n, |EncodeVarint(n)|, true);
    NumberInFront(n, EncodeValue(f));
    ValueRoundTrip(f, tag);
    ParsedBehind(EncodeField(f), tag, EncodeValue(f));
  }

  lemma ParsedBehind(d: bytes, tag: Number, rest: bytes)
    requires d != [] && ReadVarint(d) == tag && d[tag.used..] == rest
    ensures ParseField(d) == ParseValue(tag, rest)
  {
  }

  /** Every list of well-formed fields, with numbers of any size, is parsed back from its encoding. */
  lemma {:induction false} MessageRoundTrip(fs: seq<Field>)
    requires forall i :: 0 <= i < |fs| ==> WellFormed(fs[i])
    ensures Parse(Encode(fs)) == fs && Complete(Encode(fs))
    decreases |fs|
  {
    if fs != [] {
      var d := EncodeField(fs[0]);
      FieldRoundTrip(fs[0]);
      MessageRoundTrip(fs[1..]);
      ParseWhole(d, ParseField(d).value, []);
      assert d[|d|..] == [] && Complete(d) && Parse(d) == [fs[0]];
      ParseConcatenation(d, Encode(fs[1..]));
      CompleteConcatenation(d, Encode(fs[1..]));
      assert [fs[0]] + fs[1..] == fs;
    }
  }

  /** A value cut off by the end of the input is not reported: the field is returned with the bytes there are. */
  lemma CutValueIsShortened(number: nat, length: nat, part: bytes)
    requires |part| < length
    ensures Parse(EncodeVarint(number * 8 + 2) + EncodeVarint(length) + part) == [Field(number, 2, Raw(part))]
  {
    var len := EncodeVarint(length);
    var d := EncodeVarint(number * 8 + 2) + (len + part);
    Associates(EncodeVarint(number * 8 + 2), len, part);
    NumberInFront(number * 8 + 2, len + part);
    NumberInFront(length, part);
    var tag := ReadVarint(d);
    assert tag.value / 8 == number && tag.value % 8 == 2;
    assert ParseValue(tag, len + part) == Some(Parsed(Field(number, 2, Raw(part)), tag.used + |len| + length, false));
    ParseStep(d, tag, len + part);
  }

  lemma OneField(d: bytes, rest: bytes, f: Field)
    requires d != [] && d[0] < 128 && rest == d[1..]
    requires ParseValue(Number(d[0] as nat, 1, true), rest) == Some(Parsed(f, |d|, true))
    ensures Parse(d) == [f]
  {
    assert ReadVarint(d) == Number(d[0] as nat, 1, true);
    assert Behind(d, |d|) == [];
  }

  /** The wire types 0, 1, 2 and 5 are parsed, and no other. */
  lemma KnownTypes(tag: Number, rest: bytes)
    ensures ParseValue(tag, rest).Some? <==> tag.value % 8 in {0, 1, 2, 5}
  {
  }

  /** Messages byte by byte: a varint of two groups, a text, a fixed number of four and of eight bytes. */
  lemma KnownMessages()
    ensures ReadVarint([0xAC, 0x02]) == Number(300, 2, true)
    ensures Parse([0x08, 0x96, 0x01]) == [Field(1, 0, Int(150))]
    ensures Parse([0x12, 0x02, 0x68, 0x69]) == [Field(2, 2, Raw([0x68, 0x69]))]
    ensures Parse([0x1D, 1, 2, 3, 4]) == [Field(3, 5, Raw([1, 2, 3, 4]))]
    ensures Parse([0x21, 1, 2, 3, 4, 5, 6, 7, 8]) == [Field(4, 1, Raw([1, 2, 3, 4, 5, 6, 7, 8]))]
  {
    assert [0xAC, 0x02][1..] == [0x02];
    assert [0x96, 0x01][1..] == [0x01] && ReadVarint([0x96, 0x01]) == Number(150, 2, true);
    assert [0x02, 0x68, 0x69][1..] == [0x68, 0x69] && Front([0x68, 0x69], 2) == [0x68, 0x69];
    assert Front([1, 2, 3, 4], 4) == [1, 2, 3, 4];
    assert Front([1, 2, 3, 4, 5, 6, 7, 8], 8) == [1, 2, 3, 4, 5, 6, 7, 8];
    OneField([0x08, 0x96, 0x01], [0x96, 0x01], Field(1, 0, Int(150)));
    OneField([0x12, 0x02, 0x68, 0x69], [0x02, 0x68, 0x69], Field(2, 2, Raw([0x68, 0x69])));
    OneField([0x1D, 1, 2, 3, 4], [1, 2, 3, 4], Field(3, 5, Raw([1, 2, 3, 4])));
    OneField([0x21, 1, 2, 3, 4, 5, 6, 7, 8], [1, 2, 3, 4, 5, 6, 7, 8], Field(4, 1, Raw([1, 2, 3, 4, 5, 6, 7, 8])));
  }
}

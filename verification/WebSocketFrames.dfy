/**
 WebSocket frames (sections 5.2 and 5.3 of RFC 6455) as android-client/native/utlsws/websocket.go writes and
 reads them.
 */
module WebSocketFrames {
  import opened Bytes

  type MaskKey = m: bytes | |m| == 4 witness [0, 0, 0, 0]

  datatype WsFrame = WsFrame(opcode: byte, fin: bool, payload: bytes)

  /** A frame and the unread rest of the stream. */
  datatype Read = Read(frame: WsFrame, rest: bytes)

  const MAX_TUNNEL_MESSAGE_BYTES := 65537

  /** The largest length of a Go slice. */
  const MAX_INT := 0x7FFF_FFFF_FFFF_FFFF

  // ---------- Masking ----------

  function Pow2(k: nat): nat {
    if k == 0 then 1 else 2 * Pow2(k - 1)
  }

  /** Exclusive or of the low `k` bits. */
  function XorBits(a: nat, b: nat, k: nat): (x: nat)
    ensures x < Pow2(k)
  {
    if k == 0 then 0
    else 2 * XorBits(a / 2, b / 2, k - 1) + (if a % 2 == b % 2 then 0 else 1)
  }

  function Xor(a: byte, b: byte): byte {
    assert Pow2(4) == 16;
    XorBits(a, b, 8)
  }

  lemma {:induction false} XorBitsCancels(a: nat, b: nat, k: nat)
    requires a < Pow2(k)
    ensures XorBits(XorBits(a, b, k), b, k) == a
  {
    if k > 0 {
      XorBitsCancels(a / 2, b / 2, k - 1);
      var x, bit := XorBits(a / 2, b / 2, k - 1), if a % 2 == b % 2 then 0 else 1;
      assert XorBits(a, b, k) == 2 * x + bit;
      assert (2 * x + bit) / 2 == x && (2 * x + bit) % 2 == bit;
    }
  }

  lemma XorCancels(a: byte, b: byte)
    ensures Xor(Xor(a, b), b) == a
  {
    assert Pow2(4) == 16;
    XorBitsCancels(a, b, 8);
  }

  /** Bit `i` of a number, the lowest being bit 0. */
  function Bit(n: nat, i: nat): nat {
    if i == 0 then n % 2 else Bit(n / 2, i - 1)
  }

  /** `x` is the exclusive or of `a` and `b`, bit by bit. */
  ghost predicate IsXor(x: byte, a: byte, b: byte) {
    forall i :: 0 <= i < 8 ==> (Bit(x, i) == 1 <==> Bit(a, i) != Bit(b, i))
  }

  lemma {:induction false} XorBit(a: nat, b: nat, k: nat, i: nat)
    requires i < k
    ensures Bit(XorBits(a, b, k), i) == 1 <==> Bit(a, i) != Bit(b, i)
  {
    var x := XorBits(a / 2, b / 2, k - 1);
    assert XorBits(a, b, k) / 2 == x;
    if i > 0 {
      XorBit(a / 2, b / 2, k - 1, i - 1);
    }
  }

  lemma XorIsXor(a: byte, b: byte)
    ensures IsXor(Xor(a, b), a, b)
  {
    forall i | 0 <= i < 8
      ensures Bit(Xor(a, b), i) == 1 <==> Bit(a, i) != Bit(b, i)
    {
      XorBit(a, b, 8, i);
    }
  }

  /** Byte `i` of a masked body is byte `i` of the payload combined with byte `i % 4` of the key. */
  lemma MaskIsXor(payload: bytes, key: MaskKey)
    ensures forall i :: 0 <= i < |payload| ==> IsXor(Mask(payload, key)[i], payload[i], key[i % 4])
  {
    forall i | 0 <= i < |payload|
      ensures IsXor(Mask(payload, key)[i], payload[i], key[i % 4])
    {
      XorIsXor(payload[i], key[i % 4]);
    }
  }

  function Mask(payload: bytes, key: MaskKey): (masked: bytes)
    ensures |masked| == |payload|
  {
    seq(|payload|, i requires 0 <= i < |payload| => Xor(payload[i], key[i % 4]))
  }

  /** Masking twice with one key restores the payload. */
  lemma UnmaskMask(payload: bytes, key: MaskKey)
    ensures Mask(Mask(payload, key), key) == payload
  {
    forall i | 0 <= i < |payload|
      ensures Mask(Mask(payload, key), key)[i] == payload[i]
    {
      XorCancels(payload[i], key[i % 4]);
    }
  }

  // ---------- Big-endian lengths ----------

  function BigEndian(n: nat, size: nat): (b: bytes)
    ensures |b| == size
  {
    if size == 0 then [] else BigEndian(n / 256, size - 1) + [LowByte(n)]
  }

  function ReadBigEndian(b: bytes): nat {
    if b == [] then 0 else ReadBigEndian(b[..|b| - 1]) * 256 + b[|b| - 1] as nat
  }

  function Pow256(k: nat): nat {
    if k == 0 then 1 else 256 * Pow256(k - 1)
  }

  lemma {:induction false} BigEndianRoundTrip(n: nat, size: nat)
    requires n < Pow256(size)
    ensures ReadBigEndian(BigEndian(n, size)) == n
  {
    if size > 0 {
      BigEndianRoundTrip(n / 256, size - 1);
      assert BigEndian(n, size)[..size - 1] == BigEndian(n / 256, size - 1);
    }
  }

  lemma Pow256Values()
    ensures Pow256(2) == 0x1_0000 && Pow256(8) == 0x1_0000_0000_0000_0000
  {
    assert Pow256(4) == 0x1_0000_0000;
  }

  // ---------- Frames as bytes ----------

  /** `opcode | 0x80` when the frame is final. */
  function FirstByte(opcode: byte, fin: bool): byte {
    if fin && opcode < 128 then opcode + 128 else opcode
  }

  function MaskBit(masked: bool): byte {
    if masked then 128 else 0
  }

  /** The second header byte and the extended length, in the shortest of the three forms. */
  function LengthBytes(masked: bool, n: nat): bytes {
    if n < 126 then [MaskBit(masked) + n]
    else if n <= 0xFFFF then [MaskBit(masked) + 126] + BigEndian(n, 2)
    else [MaskBit(masked) + 127] + BigEndian(n, 8)
  }

  function Body(payload: bytes, key: Option<MaskKey>): bytes {
    match key
    case None => payload
    case Some(k) => k + Mask(payload, k)
  }

  function FrameBytes(f: WsFrame, key: Option<MaskKey>): Result<bytes> {
    if f.opcode >= 8 && |f.payload| > 125 then Err("control frame too large")
    else Ok([FirstByte(f.opcode, f.fin)] + LengthBytes(key.Some?, |f.payload|) + Body(f.payload, key))
  }

  /** The payload length at the front of `b`, behind the second header byte, and the bytes it takes. */
  function ReadLength(short: nat, b: bytes): Result<(nat, nat)>
    requires short < 128
  {
    if short == 126 then
      if |b| < 2 then Err("EOF") else Ok((ReadBigEndian(b[..2]), 2))
    else if short == 127 then
      if |b| < 8 then Err("EOF") else Ok((ReadBigEndian(b[..8]), 8))
    else Ok((short, 0))
  }

  /** The rest of a frame whose first byte and length are known. */
  function ReadBody(first: byte, length: nat, body: bytes, masked: bool): (r: Result<Read>)
    ensures r.Ok? ==> |r.value.rest| <= |body| && r.value.frame.opcode < 16
    ensures r.Ok? && r.value.frame.opcode >= 8 ==> |r.value.frame.payload| <= 125
  {
    var opcode: byte := first % 16;
    if opcode >= 8 && length > 125 then Err("control frame too large")
    else if masked && |body| < 4 then Err("EOF")
    else if length > MAX_TUNNEL_MESSAGE_BYTES + 1 then Err("websocket message too large")
    else
      var start := if masked then 4 else 0;
      if |body| < start + length then Err("EOF")
      else
        var raw := body[start..start + length];
        var payload := if masked then Mask(raw, body[..4]) else raw;
        Ok(Read(WsFrame(opcode, first >= 128, payload), body[start + length..]))
  }

  function ReadFrame(b: bytes, expectMasked: bool): (r: Result<Read>)
    ensures r.Ok? ==> |r.value.rest| < |b| && r.value.frame.opcode < 16
    ensures r.Ok? && r.value.frame.opcode >= 8 ==> |r.value.frame.payload| <= 125
  {
    if |b| < 2 then Err("EOF")
    else if (b[1] >= 128) != expectMasked then Err("unexpected masking")
    else
      match ReadLength(b[1] as nat % 128, b[2..])
      case Err(m) => Err(m)
      case Ok((length, used)) =>
        ReadBody(b[0], length, b[2 + used..], expectMasked)
  }

  // ---------- The layout of section 5.2 ----------

  /** The number that the bytes of `b` from `at` on spell, the first byte being the most significant. */
  function Spells(b: bytes, at: nat, size: nat): nat
    requires at + size <= |b|
    decreases size
  {
    if size == 0 then 0 else b[at] as nat * Pow256(size - 1) + Spells(b, at + 1, size - 1)
  }

  /** How many bytes of extended length follow the second byte. */
  function Extension(n: nat): nat {
    if n <= 125 then 0 else if n <= 0xFFFF then 2 else 8
  }

  /** `wire` is the frame as section 5.2 of RFC 6455 lays it out, with reserved bits zero. */
  ghost predicate LaidOut(wire: bytes, f: WsFrame, key: Option<MaskKey>) {
    var n, ext := |f.payload|, Extension(|f.payload|);
    var body := 2 + ext + if key.Some? then 4 else 0;
    && |wire| == body + n
    && wire[0] as nat == f.opcode as nat + (if f.fin then 0x80 else 0)
    && wire[1] as nat == (if key.Some? then 0x80 else 0) + (if ext == 0 then n else if ext == 2 then 126 else 127)
    && (ext > 0 ==> Spells(wire, 2, ext) == n)
    && (key.None? ==> wire[body..] == f.payload)
    && (key.Some? ==>
          && wire[2 + ext..body] == key.value
          && forall i :: 0 <= i < n ==> IsXor(wire[body + i], f.payload[i], key.value[i % 4]))
  }

  lemma {:induction false} SpellsAt(b: bytes, at: nat, part: bytes)
    requires at + |part| <= |b| && b[at..at + |part|] == part
    ensures Spells(b, at, |part|) == Spells(part, 0, |part|)
    decreases |part|
  {
    SpellsSame(b, at, part, 0, |part|);
  }

  lemma {:induction false} SpellsSame(a: bytes, i: nat, b: bytes, j: nat, size: nat)
    requires i + size <= |a| && j + size <= |b| && a[i..i + size] == b[j..j + size]
    ensures Spells(a, i, size) == Spells(b, j, size)
    decreases size
  {
    if size > 0 {
      assert a[i..i + size][0] == b[j..j + size][0];
      assert a[i + 1..i + size] == a[i..i + size][1..];
      assert b[j + 1..j + size] == b[j..j + size][1..];
      SpellsSame(a, i + 1, b, j + 1, size - 1);
    }
  }

  lemma {:induction false} SpellsLast(b: bytes, at: nat, size: nat)
    requires size > 0 && at + size <= |b|
    ensures Spells(b, at, size) == Spells(b, at, size - 1) * 256 + b[at + size - 1] as nat
    decreases size
  {
    if size > 1 {
      SpellsLast(b, at + 1, size - 1);
      assert Pow256(size - 1) == 256 * Pow256(size - 2);
    }
  }

  lemma {:induction false} BigEndianSpells(n: nat, size: nat)
    requires n < Pow256(size)
    ensures Spells(BigEndian(n, size), 0, size) == n
  {
    if size > 0 {
      var front := BigEndian(n / 256, size - 1);
      BigEndianSpells(n / 256, size - 1);
      SpellsLast(BigEndian(n, size), 0, size);
      SpellsSame(BigEndian(n, size), 0, front, 0, size - 1);
    }
  }

  /** Every written frame is laid out as the standard says, masked byte by byte with its key. */
  lemma FrameLayout(f: WsFrame, key: Option<MaskKey>)
    requires f.opcode < 0x80 && |f.payload| <= MAX_INT && FrameBytes(f, key).Ok?
    ensures LaidOut(FrameBytes(f, key).value, f, key)
  {
    var wire, n := FrameBytes(f, key).value, |f.payload|;
    var lens, body := LengthBytes(key.Some?, n), Body(f.payload, key);
    Pow256Values();
    if n > 125 {
      var size := if n <= 0xFFFF then 2 else 8;
      BigEndianSpells(n, size);
      assert lens[1..] == BigEndian(n, size);
      HeaderParts(wire, FirstByte(f.opcode, f.fin), lens, body);
      SpellsAt(wire, 2, BigEndian(n, size));
    }
    HeaderParts(wire, FirstByte(f.opcode, f.fin), lens, body);
    if key.Some? {
      MaskIsXor(f.payload, key.value);
      BodyIsMasked(wire, 1 + |lens|, f.payload, key.value);
    }
  }

  lemma HeaderParts(wire: bytes, first: byte, lens: bytes, body: bytes)
    requires |lens| >= 1 && wire == [first] + lens + body
    ensures wire[0] == first && wire[1] == lens[0] && wire[2..1 + |lens|] == lens[1..] && wire[1 + |lens|..] == body
  {
  }

  lemma BodyIsMasked(wire: bytes, at: nat, payload: bytes, key: MaskKey)
    requires at <= |wire| && wire[at..] == key + Mask(payload, key)
    ensures |wire| == at + 4 + |payload| && wire[at..at + 4] == key
    ensures forall i :: 0 <= i < |payload| ==> wire[at + 4 + i] == Mask(payload, key)[i]
  {
    var tail := key + Mask(payload, key);
    assert tail[..4] == key;
    forall i | 0 <= i < |payload|
      ensures wire[at + 4 + i] == Mask(payload, key)[i]
    {
      assert wire[at..][4 + i] == tail[4 + i];
    }
  }

  // ---------- What the reader accepts ----------

  lemma {:induction false} BitsDetermine(x: nat, y: nat, k: nat)
    requires x < Pow2(k) && y < Pow2(k) && forall i :: 0 <= i < k ==> Bit(x, i) == Bit(y, i)
    ensures x == y
  {
    if k > 0 {
      assert Bit(x, 0) == Bit(y, 0);
      forall i | 0 <= i < k - 1
        ensures Bit(x / 2, i) == Bit(y / 2, i)
      {
        assert Bit(x, i + 1) == Bit(y, i + 1);
      }
      BitsDetermine(x / 2, y / 2, k - 1);
    }
  }

  lemma {:induction false} BitIsBinary(n: nat, i: nat)
    ensures Bit(n, i) == 0 || Bit(n, i) == 1
  {
    if i > 0 {
      BitIsBinary(n / 2, i - 1);
    }
  }

  lemma XorIsUnique(x: byte, a: byte, b: byte)
    requires IsXor(x, a, b)
    ensures x == Xor(a, b)
  {
    XorIsXor(a, b);
    forall i | 0 <= i < 8
      ensures Bit(x, i) == Bit(Xor(a, b), i)
    {
      BitIsBinary(x, i);
      BitIsBinary(Xor(a, b), i);
    }
    assert Pow2(4) == 16;
    BitsDetermine(x, Xor(a, b), 8);
  }

  /** `payload` is `raw` unmasked with `key`. */
  ghost predicate Unmasks(payload: bytes, raw: bytes, key: MaskKey) {
    |payload| == |raw| && forall i :: 0 <= i < |raw| ==> IsXor(payload[i], raw[i], key[i % 4])
  }

  lemma UnmasksIff(payload: bytes, raw: bytes, key: MaskKey)
    ensures Unmasks(payload, raw, key) <==> payload == Mask(raw, key)
  {
    MaskIsXor(raw, key);
    if Unmasks(payload, raw, key) {
      forall i | 0 <= i < |raw|
        ensures payload[i] == Mask(raw, key)[i]
      {
        XorIsUnique(payload[i], raw[i], key[i % 4]);
      }
    }
  }

  /** How many bytes of extended length the second byte announces; a form longer than needed is allowed. */
  function Announced(second: byte): nat {
    if second % 128 == 126 then 2 else if second % 128 == 127 then 8 else 0
  }

  /** The payload length that the header spells. */
  function LengthAt(b: bytes): nat
    requires |b| >= 2 && 2 + Announced(b[1]) <= |b|
  {
    if Announced(b[1]) == 0 then b[1] as nat % 128 else Spells(b, 2, Announced(b[1]))
  }

  /** The header is whole, masked as expected and within the limits; reserved bits are not looked at. */
  ghost predicate HeaderFits(b: bytes, masked: bool) {
    && |b| >= 2 && (b[1] >= 0x80 <==> masked) && 2 + Announced(b[1]) <= |b|
    && LengthAt(b) <= 65538 && (b[0] % 16 >= 8 ==> LengthAt(b) <= 125)
  }

  /** Where the payload starts. */
  function PayloadAt(b: bytes, masked: bool): nat
    requires |b| >= 2
  {
    2 + Announced(b[1]) + if masked then 4 else 0
  }

  /** Frame `f` stands at the front of `b`, and `rest` behind it. */
  ghost predicate Holds(b: bytes, masked: bool, f: WsFrame, rest: bytes)
    requires HeaderFits(b, masked)
  {
    var at := PayloadAt(b, masked);
    && at + LengthAt(b) <= |b| && rest == b[at + LengthAt(b)..]
    && f.opcode == b[0] % 16 && f.fin == (b[0] >= 0x80)
    && (if masked then Unmasks(f.payload, b[at..at + LengthAt(b)], b[at - 4..at])
        else f.payload == b[at..at + LengthAt(b)])
  }

  lemma {:induction false} SpellsIsRead(b: bytes)
    ensures ReadBigEndian(b) == Spells(b, 0, |b|)
    decreases |b|
  {
    if b != [] {
      SpellsIsRead(b[..|b| - 1]);
      SpellsLast(b, 0, |b|);
      SpellsSame(b, 0, b[..|b| - 1], 0, |b| - 1);
    }
  }

  lemma LengthIsRead(b: bytes)
    requires |b| >= 2
    ensures var r := ReadLength(b[1] as nat % 128, b[2..]);
            if 2 + Announced(b[1]) <= |b| then r == Ok((LengthAt(b), Announced(b[1]))) else r.Err?
  {
    var ext := Announced(b[1]);
    if ext > 0 && 2 + ext <= |b| {
      var part := b[2..][..ext];
      assert part == b[2..2 + ext];
      SpellsIsRead(part);
      SpellsAt(b, 2, part);
    }
  }

  /**
   For every byte string: the reader returns a frame and a rest if and only if they stand there under a header that
   is whole, within the limits and masked as expected, minimal or not.
   */
  lemma ReadFrameIff(b: bytes, masked: bool, f: WsFrame, rest: bytes)
    ensures ReadFrame(b, masked) == Ok(Read(f, rest)) <==> HeaderFits(b, masked) && Holds(b, masked, f, rest)
  {
    if |b| >= 2 && (b[1] >= 0x80 <==> masked) && 2 + Announced(b[1]) <= |b| {
      LengthIsRead(b);
      var body := b[2 + Announced(b[1])..];
      ReadBodyIff(b, masked, f, rest, body);
    } else if |b| >= 2 {
      LengthIsRead(b);
    }
  }

  lemma ReadBodyIff(b: bytes, masked: bool, f: WsFrame, rest: bytes, body: bytes)
    requires |b| >= 2 && (b[1] >= 0x80 <==> masked) && 2 + Announced(b[1]) <= |b|
    requires body == b[2 + Announced(b[1])..]
    ensures ReadBody(b[0], LengthAt(b), body, masked) == Ok(Read(f, rest)) <==>
            HeaderFits(b, masked) && Holds(b, masked, f, rest)
  {
    var at, n := PayloadAt(b, masked), LengthAt(b);
    if at + n <= |b| {
      PartsOfBody(b, at, n, body, if masked then 4 else 0);
      if masked {
        UnmasksIff(f.payload, b[at..at + n], b[at - 4..at]);
      }
    }
  }

  lemma PartsOfBody(b: bytes, at: nat, n: nat, body: bytes, start: nat)
    requires start <= at && at + n <= |b| && body == b[at - start..]
    ensures body[start..start + n] == b[at..at + n] && body[..start] == b[at - start..at]
    ensures body[start + n..] == b[at + n..]
  {
  }

  // ---------- The code as written ----------

  /** `writeFrame`: the header is written and then the body. */
  method WriteFrame(f: WsFrame, key: Option<MaskKey>) returns (r: Result<bytes>)
    requires |f.payload| <= MAX_INT
    ensures r == FrameBytes(f, key)
    ensures r.Err? <==> f.opcode >= 8 && |f.payload| > 125
    ensures r.Ok? && f.opcode < 0x80 ==> LaidOut(r.value, f, key)
  {
    if f.opcode >= 8 && |f.payload| > 125 {
      return Err("control frame too large");
    }
    var header, body := BuildFrame(f, key);
    if f.opcode < 0x80 {
      FrameLayout(f, key);
    }
    return Ok(header + body);
  }

  /** The header, filled in place, and the body. */
  method BuildFrame(f: WsFrame, key: Option<MaskKey>) returns (head: bytes, body: bytes)
    requires |f.payload| <= MAX_INT && FrameBytes(f, key).Ok?
    ensures head + body == FrameBytes(f, key).value
  {
    var n := |f.payload|;
    var header := new byte[14](_ => 0);
    header[0] := FirstByte(f.opcode, f.fin);
    var offset := PutLength(header, key.Some?, n);
    assert header[..offset] == [header[0]] + header[1..offset];
    body := f.payload;
    if key.Some? {
      ghost var front := header[..offset];
      var k: MaskKey := key.value;
      PutKey(header, offset, k);
      offset := offset + 4;
      body := XorLoop(body, k);
      assert header[..offset] + body == front + Body(f.payload, key);
    }
    head := header[..offset];
  }

  /** Fills the second header byte and the extended length; `offset` is the end of what is filled. */
  method PutLength(header: array<byte>, masked: bool, n: nat) returns (offset: nat)
    requires header.Length == 14
    modifies header
    ensures 2 <= offset <= 10 && header[1..offset] == LengthBytes(masked, n)
    ensures header[0] == old(header[0])
  {
    if n < 126 {
      header[1] := MaskBit(masked) + n;
      return 2;
    }
    if n <= 0xFFFF {
      header[1] := MaskBit(masked) + 126;
      PutBigEndian(header, 2, n, 2);
      assert header[1..4] == [header[1]] + header[2..4];
      return 4;
    }
    header[1] := MaskBit(masked) + 127;
    PutBigEndian(header, 2, n, 8);
    assert header[1..10] == [header[1]] + header[2..10];
    return 10;
  }

  /** `binary.BigEndian.PutUint16` and `PutUint64`, from the last byte to the first. */
  method PutBigEndian(a: array<byte>, at: nat, n: nat, size: nat)
    requires at + size <= a.Length
    modifies a
    ensures a[at..at + size] == BigEndian(n, size)
    ensures forall i :: 0 <= i < a.Length && !(at <= i < at + size) ==> a[i] == old(a[i])
  {
    if size > 0 {
      a[at + size - 1] := LowByte(n);
      PutBigEndian(a, at, n / 256, size - 1);
      assert a[at..at + size] == a[at..at + size - 1] + [a[at + size - 1]];
    }
  }

  method PutKey(header: array<byte>, offset: nat, key: MaskKey)
    requires offset + 4 <= header.Length
    modifies header
    ensures header[..offset + 4] == old(header[..offset]) + key
  {
    header[offset], header[offset + 1], header[offset + 2], header[offset + 3] := key[0], key[1], key[2], key[3];
  }

  method XorLoop(payload: bytes, key: MaskKey) returns (body: bytes)
    ensures body == Mask(payload, key)
    ensures forall i :: 0 <= i < |payload| ==> IsXor(body[i], payload[i], key[i % 4])
  {
    MaskIsXor(payload, key);
    var cells := new byte[|payload|](i requires 0 <= i < |payload| => payload[i]);
    for i := 0 to cells.Length
      invariant forall j :: 0 <= j < i ==> cells[j] == Xor(payload[j], key[j % 4])
      invariant forall j :: i <= j < cells.Length ==> cells[j] == payload[j]
    {
      cells[i] := Xor(cells[i], key[i % 4]);
    }
    return cells[..];
  }

  // ---------- Round trip ----------

  lemma LengthRoundTrip(masked: bool, n: nat, rest: bytes)
    requires n <= MAX_INT
    ensures var b := LengthBytes(masked, n);
            && 1 <= |b| && (b[0] >= 128 <==> masked)
            && ReadLength(b[0] as nat % 128, b[1..] + rest) == Ok((n, |b| - 1))
  {
    Pow256Values();
    if 126 <= n <= 0xFFFF {
      BigEndianRoundTrip(n, 2);
      assert (BigEndian(n, 2) + rest)[..2] == BigEndian(n, 2);
    } else if n > 0xFFFF {
      BigEndianRoundTrip(n, 8);
      assert (BigEndian(n, 8) + rest)[..8] == BigEndian(n, 8);
    }
  }

  lemma BodyRoundTrip(payload: bytes, key: Option<MaskKey>, rest: bytes)
    ensures var body := Body(payload, key) + rest;
            var start := if key.Some? then 4 else 0;
            && |body| == start + |payload| + |rest|
            && body[start + |payload|..] == rest
            && (key.None? ==> body[..|payload|] == payload)
            && (key.Some? ==> body[..4] == key.value && Mask(body[4..4 + |payload|], body[..4]) == payload)
  {
    if key.Some? {
      UnmaskMask(payload, key.value);
      var body := Body(payload, key) + rest;
      assert body[4..4 + |payload|] == Mask(payload, key.value);
    }
  }

  lemma Layout(first: byte, lens: bytes, body: bytes, rest: bytes)
    requires |lens| >= 1
    ensures var b := [first] + lens + body + rest;
            && b[0] == first && b[1] == lens[0]
            && b[2..] == lens[1..] + (body + rest)
            && b[2 + (|lens| - 1)..] == body + rest
  {
  }

  /** The reader's decision, once the length is known and the body follows. */
  lemma BodyReadsBack(f: WsFrame, key: Option<MaskKey>, rest: bytes)
    requires f.opcode >= 8 ==> |f.payload| <= 125
    ensures var r := ReadBody(FirstByte(f.opcode, f.fin), |f.payload|, Body(f.payload, key) + rest, key.Some?);
            && (r == Ok(Read(f, rest)) <==> f.opcode < 16 && |f.payload| <= MAX_TUNNEL_MESSAGE_BYTES + 1)
            && (|f.payload| > MAX_TUNNEL_MESSAGE_BYTES + 1 ==> r.Err?)
  {
    BodyRoundTrip(f.payload, key, rest);
  }

  lemma ReadsToBody(b: bytes, masked: bool, length: nat, used: nat)
    requires |b| >= 2 && (b[1] >= 128) == masked
    requires ReadLength(b[1] as nat % 128, b[2..]) == Ok((length, used)) && 2 + used <= |b|
    ensures ReadFrame(b, masked) == ReadBody(b[0], length, b[2 + used..], masked)
  {
  }

  /**
   For every frame that can be written, with or without a mask and in all three length forms: reading gives
   the frame back and leaves exactly what followed it, if and only if the opcode has four bits and the
   payload is within the reader's limit.
   */
  lemma FrameRoundTripIff(f: WsFrame, key: Option<MaskKey>, rest: bytes)
    requires |f.payload| <= MAX_INT && FrameBytes(f, key).Ok?
    ensures ReadFrame(FrameBytes(f, key).value + rest, key.Some?) == Ok(Read(f, rest)) <==>
            f.opcode < 16 && |f.payload| <= MAX_TUNNEL_MESSAGE_BYTES + 1
    ensures |f.payload| > MAX_TUNNEL_MESSAGE_BYTES + 1 ==> ReadFrame(FrameBytes(f, key).value + rest, key.Some?).Err?
  {
    var lens, body := LengthBytes(key.Some?, |f.payload|), Body(f.payload, key);
    LengthRoundTrip(key.Some?, |f.payload|, body + rest);
    Layout(FirstByte(f.opcode, f.fin), lens, body, rest);
    ReadsToBody(FrameBytes(f, key).value + rest, key.Some?, |f.payload|, |lens| - 1);
    BodyReadsBack(f, key, rest);
  }
}

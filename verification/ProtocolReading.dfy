/** What the frame decoder of tunnel/protocol.js makes of arbitrary bytes, and the bytes of known frames. */
module ProtocolReading {
  import opened Bytes
  import opened Protocol
  import opened ProtocolTheorems

  /** The frame is written as these bytes, without its length. */
  predicate Writes(f: Frame, e: bytes) {
    EncodePayload(f).Ok? && EncodePayload(f).value == e
  }

  /** The bytes of one frame of each type, as written on the wire. */
  lemma KnownFrames()
    ensures Writes(Connect(0x8001, IPv4([1, 2, 3, 4]), 443), [0x01, 0x80, 0x01, 0x01, 1, 2, 3, 4, 0x01, 0xBB])
    ensures Writes(Connect(2, Domain([97, 46, 98]), 80), [0x01, 0, 2, 0x03, 3, 97, 46, 98, 0, 80])
    ensures Writes(Data(0x1234, [7, 8]), [0x02, 0x12, 0x34, 7, 8])
    ensures Writes(CloseStream(0x1234), [0x03, 0x12, 0x34]) && Writes(ConnectOk(0x1234), [0x04, 0x12, 0x34])
    ensures Writes(ConnectFailed(0x1234), [0x81, 0x12, 0x34])
    ensures Writes(Ping([7]), [0x10, 7]) && Writes(Pong([7]), [0x11, 7]) && Writes(Padding([7]), [0x30, 7])
    ensures Writes(AuthOk, [0x21]) && Writes(AuthFail, [0x22]) && Writes(ErrorFrame([7, 8]), [0x23, 2, 7, 8])
    ensures EncodeFrame(CloseStream(0x1234)).Ok? && EncodeFrame(CloseStream(0x1234)).value == [0, 3, 0x03, 0x12, 0x34]
  {
  }

  lemma KnownLists()
    ensures Writes(Capabilities([[7, 8], [9]]), [0x24, 2, 2, 7, 8, 1, 9])
    ensures Writes(Auth([1], [2, 3], [[4]], Some([5])), [0x20, 1, 1, 2, 2, 3, 1, 1, 4, 1, 5])
  {
    assert [[9]][1..] == [] && [[7, 8], [9]][1..] == [[9]] && [[4]][1..] == [];
    assert EncodeCapList([[9]]).value == [1, 9] && EncodeCapList([[4]]).value == [1, 4];
    assert EncodeCapList([[7, 8], [9]]).value == [2, 7, 8, 1, 9];
  }

  predicate StartsWith(p: bytes, e: bytes) {
    |e| <= |p| && p[..|e|] == e
  }

  /** A list is encoded if and only if every capability fits its length byte. */
  lemma {:induction false} CapListEncodesIff(caps: seq<bytes>)
    ensures EncodeCapList(caps).Ok? <==> forall c :: c in caps ==> |c| <= 255
    decreases |caps|
  {
    if caps != [] {
      CapListEncodesIff(caps[1..]);
      assert forall c :: c in caps <==> c == caps[0] || c in caps[1..];
    }
  }

  /** What the server can encode: other numbers that do not fit are cut, not rejected. */
  lemma ServerEncodesIff(f: Frame)
    ensures EncodePayload(f).Ok? <==>
            && !f.Unknown? && (f.Connect? ==> f.port <= 0xFFFF)
            && (f.Auth? || f.Capabilities? ==> forall c :: c in f.capabilities ==> |c| <= 255)
            && (f.Auth? && f.clientId.Some? ==> |f.clientId.value| <= 255)
    ensures EncodeFrame(f).Ok? <==> EncodePayload(f).Ok? && |EncodePayload(f).value| <= 65_535
  {
    if f.Auth? || f.Capabilities? {
      CapListEncodesIff(f.capabilities);
    }
  }

  // ---------- Frames that are never rejected ----------

  /** Only CONNECT, AUTH and CAPABILITIES can be rejected; an unknown type is kept with its bytes. */
  lemma NeverRejected(p: bytes)
    requires p == [] || p[0] !in {0x01, 0x20, 0x24}
    ensures DecodePayload(p).Ok?
    ensures DecodePayload(p).value.Unknown? <==>
            p == [] || p[0] !in {0x02, 0x03, 0x04, 0x81, 0x10, 0x11, 0x30, 0x21, 0x22, 0x23}
    ensures DecodePayload(p).value.Unknown? && p != [] ==> DecodePayload(p).value == Unknown(Some(p[0]), p[1..])
  {
  }

  /** The type and the id are there, and the frame takes everything behind them. */
  predicate IsPlain(p: bytes) {
    (|p| >= 3 && p[0] in {0x02, 0x03, 0x04, 0x81}) || (p != [] && p[0] in {0x10, 0x11, 0x30, 0x21, 0x22})
  }

  predicate TakesAll(f: Frame) {
    f.Data? || f.Ping? || f.Pong? || f.Padding?
  }

  /** A frame that is whole is read as exactly the one whose encoding it is; bytes behind an id are ignored. */
  lemma PlainReadIff(p: bytes, f: Frame)
    requires IsPlain(p)
    ensures DecodePayload(p) == Ok(f) <==>
            && FieldsFit(f) && EncodePayload(f).Ok? && StartsWith(p, EncodePayload(f).value)
            && (TakesAll(f) ==> EncodePayload(f).value == p)
  {
    var g := DecodePayload(p).value;
    if p[0] in {0x02, 0x03, 0x04, 0x81} {
      assert Tagged(p[0], ReqidAt(p, 1)) == p[..3];
      assert p == p[..3] + p[3..];
    } else {
      assert p == [p[0]] + p[1..] && p[..1] == [p[0]];
    }
    assert StartsWith(p, EncodePayload(g).value);
    if FieldsFit(f) && EncodePayload(f).Ok? && StartsWith(p, EncodePayload(f).value)
       && (TakesAll(f) ==> EncodePayload(f).value == p) {
      SameFrame(p, f, g);
    }
  }

  lemma SameFrame(p: bytes, f: Frame, g: Frame)
    requires IsPlain(p) && DecodePayload(p) == Ok(g) && FieldsFit(f) && EncodePayload(f).Ok?
    requires StartsWith(p, EncodePayload(f).value) && (TakesAll(f) ==> EncodePayload(f).value == p)
    ensures f == g
  {
    var e := EncodePayload(f).value;
    assert e[0] == p[..|e|][0] == p[0];
    if TakesAll(f) {
      PayloadRoundTrip(f);
    } else if f.CloseStream? || f.ConnectOk? || f.ConnectFailed? {
      assert e[1] == p[..|e|][1] == p[1] && e[2] == p[..|e|][2] == p[2];
    }
  }

  function Zeros(n: nat): bytes {
    seq(n, _ => 0)
  }

  /** Bytes of an id that are missing count as zero. */
  lemma ShortIdIsFilled(p: bytes)
    requires 1 <= |p| < 3 && p[0] in {0x02, 0x03, 0x04, 0x81}
    ensures DecodePayload(p) == DecodePayload(p + Zeros(3 - |p|))
  {
  }

  /** An error text is read up to its length or to the end of the payload, whichever comes first. */
  lemma ErrorTextIsRead(p: bytes)
    requires p != [] && p[0] == 0x23
    ensures DecodePayload(p).Ok? && DecodePayload(p).value.ErrorFrame?
    ensures var m := DecodePayload(p).value.message;
            && (|p| <= 2 ==> m == [])
            && (|p| > 2 ==> m <= p[2..] && |m| == if p[1] as nat <= |p| - 2 then p[1] as nat else |p| - 2)
  {
  }

  // ---------- CONNECT ----------

  lemma AddressIsWritten(p: bytes, addr: Address, end: nat)
    requires DecodeAddress(p, 3) == Ok((addr, end)) && end <= |p|
    ensures AddressFits(addr) && p[3..end] == EncodeAddress(addr)
  {
    match addr {
      case IPv4(octets) => QuadIsWritten(p, octets);
      case Domain(name) => NameIsWritten(p, name, end);
      case IPv6(raw) => RawIsWritten(p, raw);
    }
  }

  lemma NameIsWritten(p: bytes, name: bytes, end: nat)
    requires |p| >= 5 && p[3] == 0x03 && end == 5 + p[4] as nat <= |p| && name == Slice(p, 5, end)
    ensures |name| < 256 && [0x03, LowByte(|name|)] + name == p[3..end]
  {
    SliceWithin(p, 5, end);
  }

  lemma RawIsWritten(p: bytes, raw: bytes)
    requires |p| >= 20 && p[3] == 0x04 && raw == Slice(p, 4, 20)
    ensures |raw| == 16 && [0x04] + raw == p[3..20]
  {
    SliceWithin(p, 4, 20);
  }

  lemma QuadIsWritten(p: bytes, octets: seq<nat>)
    requires |p| >= 8 && p[3] == 0x01 && octets == Octets(p, 4)
    ensures |octets| == 4 && (forall i :: 0 <= i < 4 ==> octets[i] < 256) && [0x01] + LowBytes(octets) == p[3..8]
  {
    assert octets == [p[4] as nat, p[5] as nat, p[6] as nat, p[7] as nat];
    assert LowBytes(octets) == [p[4], p[5], p[6], p[7]] == p[4..8];
  }

  lemma ConnectIsWritten(p: bytes, f: Frame)
    requires p != [] && p[0] == 0x01 && DecodePayload(p) == Ok(f)
    ensures f.Connect? && FieldsFit(f) && f.port <= 0xFFFF && StartsWith(p, EncodePayload(f).value)
  {
    var end := DecodeAddress(p, 3).value.1;
    assert DecodeConnect(p) == Ok(f);
    AddressIsWritten(p, f.addr, end);
    PartsAreWritten(p, f, EncodeAddress(f.addr), end);
  }

  lemma PartsAreWritten(p: bytes, f: Frame, a: bytes, end: nat)
    requires 3 <= end && end + 2 <= |p| && p[0] == 0x01 && p[3..end] == a && f.Connect? && a == EncodeAddress(f.addr)
    requires f.reqid == ReqidAt(p, 1) && f.port == ReadU16BE(p, end)
    ensures f.reqid < 0x1_0000 && f.port <= 0xFFFF && StartsWith(p, EncodePayload(f).value)
  {
    assert Tagged(0x01, f.reqid) == p[..3] && U16BE(f.port) == p[end..end + 2];
    ThreeParts(p, 3, end, end + 2);
    assert EncodePayload(f).value == p[..end + 2];
  }

  lemma ThreeParts(p: bytes, a: nat, b: nat, c: nat)
    requires a <= b <= c <= |p|
    ensures p[..a] + p[a..b] + p[b..c] == p[..c]
    ensures p[..c] + p[c..] == p
  {
  }

  lemma ConnectIsRead(p: bytes, f: Frame)
    requires f.Connect? && FieldsFit(f) && f.port <= 0xFFFF && StartsWith(p, EncodePayload(f).value)
    ensures DecodePayload(p) == Ok(f)
  {
    var a := EncodeAddress(f.addr);
    var head, port := Tagged(0x01, f.reqid), U16BE(f.port);
    var e := head + a + port;
    var rest := p[|e|..];
    assert p == head + a + (port + rest);
    AddressRoundTrip(f.addr, head, port + rest);
    HeadAndPort(p, head, a, port, rest);
    ConnectDecodes(p, f, 3 + |a|);
  }

  lemma HeadAndPort(p: bytes, head: bytes, a: bytes, port: bytes, rest: bytes)
    requires |head| == 3 && |port| == 2 && p == head + a + (port + rest)
    ensures |p| >= 5 + |a| && p[0] == head[0] && p[1] == head[1] && p[2] == head[2]
    ensures p[3 + |a|] == port[0] && p[4 + |a|] == port[1]
  {
  }

  lemma ConnectDecodes(p: bytes, f: Frame, end: nat)
    requires f.Connect? && 3 <= end && end + 2 <= |p| && DecodeAddress(p, 3) == Ok((f.addr, end))
    requires p[0] == 0x01 && ReqidAt(p, 1) == f.reqid && ReadU16BE(p, end) == f.port
    ensures DecodePayload(p) == Ok(f)
  {
  }

  /** A CONNECT is read if and only if the bytes start with its encoding; what follows is ignored. */
  lemma ConnectReadIff(p: bytes, f: Frame)
    requires p != [] && p[0] == 0x01
    ensures DecodePayload(p) == Ok(f) <==>
            f.Connect? && FieldsFit(f) && f.port <= 0xFFFF && StartsWith(p, EncodePayload(f).value)
  {
    if DecodePayload(p) == Ok(f) {
      ConnectIsWritten(p, f);
    } else if f.Connect? && FieldsFit(f) && f.port <= 0xFFFF && StartsWith(p, EncodePayload(f).value) {
      ConnectIsRead(p, f);
    }
  }

  // ---------- Capability lists ----------

  /** What is read as a capability list is the encoding of that list. */
  lemma {:induction false} CapListIsWritten(p: bytes, offset: nat, count: nat, caps: seq<bytes>, end: nat)
    requires offset <= |p| && DecodeCapList(p, offset, count) == Ok((caps, end))
    ensures offset <= end <= |p| && |caps| == count && EncodeCapList(caps) == Ok(p[offset..end])
    decreases count
  {
    if count > 0 {
      var next := offset + 1 + p[offset] as nat;
      var rest := DecodeCapList(p, next, count - 1).value.0;
      assert caps == [p[offset + 1..next]] + rest && caps[1..] == rest;
      CapListIsWritten(p, next, count - 1, rest, end);
      assert [p[offset]] + p[offset + 1..next] + p[next..end] == p[offset..end];
      assert caps[0] == p[offset + 1..next] && |caps[0]| as byte == p[offset];
    } else {
      assert p[offset..end] == [];
    }
  }

  lemma CapabilitiesAreWritten(p: bytes, offset: nat, caps: seq<bytes>, end: nat)
    requires offset < |p| && DecodeCapabilities(p, offset) == Ok((caps, end))
    ensures offset < end <= |p| && |caps| < 256 && EncodeCapabilities(caps) == Ok(p[offset..end])
  {
    CapListIsWritten(p, offset + 1, p[offset] as nat, caps, end);
    assert [p[offset]] + p[offset + 1..end] == p[offset..end];
  }

  lemma CapabilitiesAreRead(p: bytes, offset: nat, caps: seq<bytes>, c: bytes)
    requires offset + |c| <= |p| && p[offset..offset + |c|] == c && |caps| < 256 && EncodeCapabilities(caps) == Ok(c)
    ensures DecodeCapabilities(p, offset) == Ok((caps, offset + |c|))
  {
    CapabilitiesRoundTrip(caps, p[..offset], c, p[offset + |c|..]);
    assert p[..offset] + c + p[offset + |c|..] == p;
  }

  /** A CAPABILITIES frame is read if and only if it is empty or starts with the encoding of the list. */
  lemma CapabilitiesReadIff(p: bytes, f: Frame)
    requires p != [] && p[0] == 0x24
    ensures DecodePayload(p) == Ok(f) <==>
            && f.Capabilities? && FieldsFit(f)
            && ((|p| == 1 && f.capabilities == [])
                || (EncodePayload(f).Ok? && StartsWith(p, EncodePayload(f).value)))
  {
    if |p| > 1 && DecodePayload(p).Ok? {
      var (caps, end) := DecodeCapabilities(p, 1).value;
      CapabilitiesAreWritten(p, 1, caps, end);
      assert [0x24] + p[1..end] == p[..end];
    }
    if f.Capabilities? && FieldsFit(f) && EncodePayload(f).Ok? && StartsWith(p, EncodePayload(f).value) {
      var c := EncodeCapabilities(f.capabilities).value;
      var e := [0x24] + c;
      assert p[1..1 + |c|] == p[..|e|][1..] == e[1..] == c;
      CapabilitiesAreRead(p, 1, f.capabilities, c);
    }
  }

  // ---------- AUTH ----------

  /**
   With nothing behind the password the offset is zero again, and the rest of the frame is read as client id: the
   type byte 0x20 is its length, so this is accepted exactly for 33 bytes.
   */
  predicate Misread(p: bytes, f: Frame) {
    && |p| == 33 && f.Auth? && f.capabilities == [] && f.clientId == Some(p[1..])
    && 2 + p[1] as nat < 33 && f.username == p[2..2 + p[1] as nat]
    && 3 + p[1] as nat + p[2 + p[1] as nat] as nat >= 33 && f.password == p[3 + p[1] as nat..]
  }

  /** The client id is there, and empty. */
  predicate EmptyClientId(p: bytes, f: Frame) {
    && p != [] && p[|p| - 1] == 0 && f.Auth? && f.clientId == Some([])
    && Encodes(f.(clientId := None), p[..|p| - 1])
  }

  predicate Encodes(f: Frame, p: bytes) {
    FieldsFit(f) && EncodePayload(f) == Ok(p)
  }

  lemma ClientIdIsWritten(p: bytes, offset: nat, id: Option<bytes>)
    requires offset <= |p| && DecodeClientId(p, offset) == Ok(id)
    ensures id != Some([]) ==> EncodeClientId(id) == Ok(p[offset..])
    ensures id == Some([]) ==> p[offset..] == [0]
  {
    if id.Some? {
      assert p[offset..] == [p[offset]] + p[offset + 1..] && p[offset + 1..] == p[offset + 1..|p|];
    } else {
      assert p[offset..] == [];
    }
  }

  lemma AuthParts(p: bytes, uEnd: nat, pEnd: nat, cEnd: nat)
    requires 2 <= uEnd < pEnd <= cEnd <= |p| && p[0] == 0x20 && uEnd == 2 + p[1] as nat
    requires pEnd == uEnd + 1 + p[uEnd] as nat
    ensures var u, w := p[2..uEnd], p[uEnd + 1..pEnd];
            && p[..cEnd] == [0x20, LowByte(|u|)] + u + [LowByte(|w|)] + w + p[pEnd..cEnd]
            && p == p[..cEnd] + p[cEnd..]
  {
  }

  lemma NoBytesOfClientId(p: bytes, offset: nat)
    requires offset + 1 == |p| && p[offset] == 0
    ensures DecodeClientId(p, offset) == Ok(Some([]))
  {
    assert p[offset + 1..|p|] == [];
  }

  lemma AuthEncodes(u: bytes, w: bytes, caps: seq<bytes>, id: Option<bytes>, c: bytes, i: bytes, p: bytes)
    requires EncodeCapabilities(caps) == Ok(c) && EncodeClientId(id) == Ok(i)
    requires p == [0x20, LowByte(|u|)] + u + [LowByte(|w|)] + w + c + i
    ensures EncodePayload(Auth(u, w, caps, id)) == Ok(p)
  {
  }

  lemma AuthRestIsWritten(p: bytes, uEnd: nat, pEnd: nat, caps: seq<bytes>, cEnd: nat, id: Option<bytes>, f: Frame)
    requires 2 <= uEnd < pEnd < cEnd <= |p| && p[0] == 0x20 && uEnd == 2 + p[1] as nat
    requires pEnd == uEnd + 1 + p[uEnd] as nat && |caps| < 256
    requires EncodeCapabilities(caps) == Ok(p[pEnd..cEnd]) && DecodeClientId(p, cEnd) == Ok(id)
    requires f == Auth(p[2..uEnd], p[uEnd + 1..pEnd], caps, id)
    ensures (Encodes(f, p) && KeepsClientId(f)) || EmptyClientId(p, f)
  {
    var u, w, c := p[2..uEnd], p[uEnd + 1..pEnd], p[pEnd..cEnd];
    ClientIdIsWritten(p, cEnd, id);
    AuthParts(p, uEnd, pEnd, cEnd);
    if id == Some([]) {
      assert p[cEnd..] == [0] && p[..|p| - 1] == p[..cEnd] && p[|p| - 1] == p[cEnd..][0];
      assert p[..cEnd] + [] == p[..cEnd];
      AuthEncodes(u, w, caps, None, c, [], p[..cEnd]);
    } else {
      AuthEncodes(u, w, caps, id, c, p[cEnd..], p);
    }
  }

  lemma AuthIsWritten(p: bytes, f: Frame)
    requires p != [] && p[0] == 0x20 && DecodeAuth(p) == Ok(f)
    ensures (Encodes(f, p) && KeepsClientId(f)) || EmptyClientId(p, f) || Misread(p, f)
  {
    var uEnd := 2 + p[1] as nat;
    var pEnd := uEnd + 1 + p[uEnd] as nat;
    var (caps, cEnd) := DecodeCapabilities(p, pEnd).value;
    if pEnd < |p| {
      var id := DecodeClientId(p, cEnd).value;
      SliceWithin(p, 2, uEnd);
      SliceWithin(p, uEnd + 1, pEnd);
      CapabilitiesAreWritten(p, pEnd, caps, cEnd);
      AuthRestIsWritten(p, uEnd, pEnd, caps, cEnd, id, f);
    } else {
      NothingBehind(p, uEnd, pEnd, f);
    }
  }

  lemma NothingBehind(p: bytes, uEnd: nat, pEnd: nat, f: Frame)
    requires 2 <= uEnd < |p| <= pEnd && uEnd == 2 + p[1] as nat && pEnd == uEnd + 1 + p[uEnd] as nat
    requires p[0] == 0x20 && DecodeAuthRest(p, uEnd, pEnd) == Ok(f)
    ensures Misread(p, f)
  {
    assert DecodeCapabilities(p, pEnd) == Ok(([], 0));
    assert DecodeClientId(p, 0).Ok? && |p| == 33;
    assert p[1..33] == p[1..];
    SliceWithin(p, 2, uEnd);
    assert Slice(p, uEnd + 1, pEnd) == p[uEnd + 1..];
  }

  lemma MisreadIsRead(p: bytes, f: Frame)
    requires p != [] && p[0] == 0x20 && Misread(p, f)
    ensures DecodeAuth(p) == Ok(f)
  {
    var uEnd := 2 + p[1] as nat;
    var pEnd := uEnd + 1 + p[uEnd] as nat;
    assert DecodeCapabilities(p, pEnd) == Ok(([], 0));
    assert p[1..33] == p[1..];
    assert Slice(p, uEnd + 1, pEnd) == p[uEnd + 1..];
    assert Slice(p, 2, uEnd) == p[2..uEnd];
  }

  lemma EmptyClientIdIsRead(p: bytes, f: Frame)
    requires p != [] && p[0] == 0x20 && EmptyClientId(p, f)
    ensures DecodeAuth(p) == Ok(f)
  {
    var u, w, c := f.username, f.password, EncodeCapabilities(f.capabilities).value;
    var before := [0x20, LowByte(|u|)] + u + [LowByte(|w|)] + w;
    EmptyIdBehind(p, before + c);
    EmptyIdDecodes(p, u, w, f.capabilities, c);
  }

  lemma EmptyIdBehind(p: bytes, front: bytes)
    requires p != [] && p[|p| - 1] == 0 && p[..|p| - 1] == front + []
    ensures p == front + [0]
  {
    assert front + [] == front;
    assert p == p[..|p| - 1] + [p[|p| - 1]];
  }

  lemma EmptyIdDecodes(p: bytes, u: bytes, w: bytes, caps: seq<bytes>, c: bytes)
    requires |u| < 256 && |w| < 256 && |caps| < 256 && EncodeCapabilities(caps) == Ok(c)
    requires p == [0x20, LowByte(|u|)] + u + [LowByte(|w|)] + w + c + [0]
    ensures DecodeAuth(p) == Ok(Auth(u, w, caps, Some([])))
  {
    AuthLayout(u, w, c, [0], p);
    CapabilitiesRoundTrip(caps, [0x20, LowByte(|u|)] + u + [LowByte(|w|)] + w, c, [0]);
    NoBytesOfClientId(p, 3 + |u| + |w| + |c|);
    RestDecodes(p, 2 + |u|, 3 + |u| + |w|, 3 + |u| + |w| + |c|, caps, Some([]));
  }

  /**
   An AUTH frame is read if and only if the bytes are its encoding, or that with an empty client id behind it, or the
   33 bytes that are misread.
   */
  lemma AuthReadIff(p: bytes, f: Frame)
    requires p != [] && p[0] == 0x20
    ensures DecodePayload(p) == Ok(f) <==>
            (f.Auth? && Encodes(f, p) && KeepsClientId(f)) || EmptyClientId(p, f) || Misread(p, f)
  {
    if DecodeAuth(p) == Ok(f) {
      AuthIsWritten(p, f);
    }
    if f.Auth? && Encodes(f, p) && KeepsClientId(f) {
      PayloadRoundTrip(f);
    } else if EmptyClientId(p, f) {
      EmptyClientIdIsRead(p, f);
    } else if Misread(p, f) {
      MisreadIsRead(p, f);
    }
  }

  // ---------- Batches ----------

  /** A post body that carries the given payloads, each behind its length. */
  function Framed(ps: seq<bytes>): bytes {
    if ps == [] then [] else U16BE(|ps[0]|) + ps[0] + Framed(ps[1..])
  }

  predicate Small(ps: seq<bytes>) {
    forall i :: 0 <= i < |ps| ==> |ps[i]| <= 0xFFFF
  }

  /** Frame `i` is what payload `i` is read as. */
  predicate Reads(ps: seq<bytes>, fs: seq<Frame>) {
    |ps| == |fs| && forall i :: 0 <= i < |ps| ==> DecodePayload(ps[i]) == Ok(fs[i])
  }

  lemma ReadsCons(p: bytes, f: Frame, ps: seq<bytes>, fs: seq<Frame>)
    ensures Reads([p] + ps, [f] + fs) <==> DecodePayload(p) == Ok(f) && Reads(ps, fs)
    ensures Small([p] + ps) <==> |p| <= 0xFFFF && Small(ps)
    ensures Framed([p] + ps) == U16BE(|p|) + p + Framed(ps)
  {
    var qs, gs := [p] + ps, [f] + fs;
    assert qs[0] == p && gs[0] == f && qs[1..] == ps;
    assert forall i :: 0 <= i < |ps| ==> qs[i + 1] == ps[i];
    assert forall i :: 0 <= i < |fs| ==> gs[i + 1] == fs[i];
  }

  lemma {:induction false} FramedIsRead(ps: seq<bytes>, fs: seq<Frame>)
    requires Small(ps) && Reads(ps, fs)
    ensures DecodeFrames(Framed(ps)) == Ok(fs)
    decreases |ps|
  {
    if ps != [] {
      var p, e := ps[0], U16BE(|ps[0]|) + ps[0];
      assert [p] + ps[1..] == ps && [fs[0]] + fs[1..] == fs;
      ReadsCons(p, fs[0], ps[1..], fs[1..]);
      FramedIsRead(ps[1..], fs[1..]);
      FirstOfBatch(p, e, Framed(ps[1..]));
      HeaderRoundTrip(p, []);
      assert e + [] == e;
    }
  }

  /** The first payload of a body. */
  lemma FirstIsFramed(b: bytes, fs: seq<Frame>) returns (p: bytes, end: nat)
    requires b != [] && DecodeFrames(b) == Ok(fs)
    ensures |p| <= 0xFFFF && end == 2 + |p| <= |b| && b == U16BE(|p|) + p + b[end..]
    ensures fs != [] && DecodePayload(p) == Ok(fs[0]) && DecodeFrames(b[end..]) == Ok(fs[1..])
  {
    end := 2 + ReadU16BE(b, 0);
    p := b[2..end];
    HeaderIsWhole(b, p, end);
    var rest := DecodeFrames(b[end..]).value;
    assert fs == [DecodePayload(p).value] + rest && fs[1..] == rest;
  }

  lemma HeaderIsWhole(b: bytes, p: bytes, end: nat)
    requires |b| >= end >= 2 && end == 2 + ReadU16BE(b, 0) && p == b[2..end]
    ensures DecodeFrame(b[..end]) == Sized(DecodePayload(p), end) && b == U16BE(|p|) + p + b[end..]
  {
    assert b[..end][2..end] == p && ReadU16BE(b[..end], 0) == |p|;
    assert U16BE(|p|) == b[..2];
    ThreeParts(b, 2, end, end);
    assert b[..2] + p == b[..end];
  }

  lemma {:induction false} ReadIsFramed(b: bytes, fs: seq<Frame>) returns (ps: seq<bytes>)
    requires DecodeFrames(b) == Ok(fs)
    ensures Small(ps) && Reads(ps, fs) && Framed(ps) == b
    decreases |b|
  {
    if b == [] {
      ps := [];
    } else {
      var p, end := FirstIsFramed(b, fs);
      var more := ReadIsFramed(b[end..], fs[1..]);
      ps := [p] + more;
      assert fs == [fs[0]] + fs[1..];
      ReadsCons(p, fs[0], more, fs[1..]);
    }
  }

  /** A body is read as a list of frames if and only if it is made of payloads that are read as these, one each. */
  lemma BatchReadIff(b: bytes, fs: seq<Frame>)
    ensures DecodeFrames(b) == Ok(fs) <==> exists ps :: Small(ps) && Reads(ps, fs) && Framed(ps) == b
  {
    if DecodeFrames(b) == Ok(fs) {
      var ps := ReadIsFramed(b, fs);
    }
    if ps :| Small(ps) && Reads(ps, fs) && Framed(ps) == b {
      FramedIsRead(ps, fs);
    }
  }
}

/** Round trips of the frame codec, with the exact fields for which they hold. */
module ProtocolTheorems {
  import opened Bytes
  import opened Protocol

  // ---------- Fields that survive encoding ----------

  predicate AddressFits(a: Address) {
    match a
    case IPv4(octets) => |octets| == 4 && forall i :: 0 <= i < 4 ==> octets[i] < 256
    case Domain(name) => |name| < 256
    case IPv6(raw) => |raw| == 16
  }

  /** Every number of the frame fits the bytes the format gives it. */
  predicate FieldsFit(f: Frame) {
    match f
    case Connect(reqid, addr, _) => reqid < 0x1_0000 && AddressFits(addr)
    case Data(reqid, _) => reqid < 0x1_0000
    case CloseStream(reqid) => reqid < 0x1_0000
    case ConnectOk(reqid) => reqid < 0x1_0000
    case ConnectFailed(reqid) => reqid < 0x1_0000
    case Auth(u, p, caps, _) => |u| < 256 && |p| < 256 && |caps| < 256
    case Capabilities(caps) => |caps| < 256
    case ErrorFrame(message) => |message| < 256
    case _ => true
  }

  /** An empty client id is dropped by the encoder. */
  predicate KeepsClientId(f: Frame) {
    f.Auth? ==> f.clientId != Some([])
  }

  // ---------- Capability lists ----------

  lemma CapListCons(p: bytes, offset: nat, c: bytes, count: nat, rest: seq<bytes>, end: nat)
    requires count > 0 && offset + 1 + |c| <= |p| && p[offset] as nat == |c| && p[offset + 1..offset + 1 + |c|] == c
    requires DecodeCapList(p, offset + 1 + |c|, count - 1) == Ok((rest, end))
    ensures DecodeCapList(p, offset, count) == Ok(([c] + rest, end))
  {
  }

  lemma SliceOfSlice(p: bytes, offset: nat, list: bytes, from: nat, to: nat)
    requires offset + |list| <= |p| && p[offset..offset + |list|] == list && from <= to <= |list|
    ensures p[offset + from..offset + to] == list[from..to]
  {
    var whole := p[offset..offset + |list|];
    forall i | 0 <= i < to - from
      ensures p[offset + from..offset + to][i] == list[from..to][i]
    {
      assert whole[from + i] == p[offset + (from + i)];
    }
  }

  /** A capability and the list behind it, inside a payload. */
  lemma CapAt(p: bytes, offset: nat, c: bytes, rest: bytes, list: bytes)
    requires |c| < 256 && list == [|c| as byte] + c + rest
    requires offset + |list| <= |p| && p[offset..offset + |list|] == list
    ensures p[offset] as nat == |c| && p[offset + 1..offset + 1 + |c|] == c
    ensures p[offset + 1 + |c|..offset + |list|] == rest
  {
    assert p[offset] == p[offset..offset + |list|][0];
    SliceOfSlice(p, offset, list, 1, 1 + |c|);
    SliceOfSlice(p, offset, list, 1 + |c|, |list|);
    assert list[1..1 + |c|] == c && list[1 + |c|..] == rest;
  }

  /** An encoded list is read wherever it stands in a payload. */
  lemma {:induction false} CapListAt(p: bytes, offset: nat, caps: seq<bytes>, list: bytes)
    requires EncodeCapList(caps) == Ok(list) && offset + |list| <= |p| && p[offset..offset + |list|] == list
    ensures DecodeCapList(p, offset, |caps|) == Ok((caps, offset + |list|))
    decreases |caps|
  {
    if caps != [] {
      var c, rest := caps[0], EncodeCapList(caps[1..]).value;
      CapAt(p, offset, c, rest, list);
      CapListAt(p, offset + 1 + |c|, caps[1..], rest);
      CapListCons(p, offset, c, |caps|, caps[1..], offset + |list|);
      assert [c] + caps[1..] == caps;
    }
  }

  lemma InTheMiddle(before: bytes, list: bytes, after: bytes)
    ensures (before + list + after)[|before|..|before| + |list|] == list
  {
  }

  lemma {:induction false} CapListRoundTrip(caps: seq<bytes>, before: bytes, list: bytes, after: bytes)
    requires EncodeCapList(caps) == Ok(list)
    ensures DecodeCapList(before + list + after, |before|, |caps|) == Ok((caps, |before| + |list|))
  {
    InTheMiddle(before, list, after);
    CapListAt(before + list + after, |before|, caps, list);
  }

  lemma CapabilitiesRoundTrip(caps: seq<bytes>, before: bytes, c: bytes, after: bytes)
    requires EncodeCapabilities(caps) == Ok(c) && |caps| < 256
    ensures DecodeCapabilities(before + c + after, |before|) == Ok((caps, |before| + |c|))
  {
    var list := EncodeCapList(caps).value;
    var count := [LowByte(|caps|)];
    CapListRoundTrip(caps, before + count, list, after);
    assert c == count + list;
    Associates(before, count, list);
    Associates(before, c, after);
    assert (before + (c + after))[|before|] == |caps|;
  }

  /** The decoder never reports more capabilities than the count byte. */
  lemma {:induction false} CapListLength(p: bytes, offset: nat, count: nat)
    requires DecodeCapList(p, offset, count).Ok?
    ensures |DecodeCapList(p, offset, count).value.0| == count
    decreases count
  {
    if count > 0 {
      CapListLength(p, offset + 1 + p[offset] as nat, count - 1);
    }
  }

  // ---------- One frame ----------

  lemma AddressRoundTrip(addr: Address, before: bytes, after: bytes)
    requires AddressFits(addr)
    ensures DecodeAddress(before + EncodeAddress(addr) + after, |before|) ==
            Ok((addr, |before| + |EncodeAddress(addr)|))
  {
    var a := EncodeAddress(addr);
    var p := before + a + after;
    var n := |before|;
    assert p[n..n + |a|] == a;
    assert forall i :: 0 <= i < |a| ==> p[n + i] == a[i];
    match addr {
      case IPv4(octets) =>
        assert forall i :: 0 <= i < 4 ==> p[n + (1 + i)] == octets[i];
        assert Octets(p, n + 1) == [octets[0], octets[1], octets[2], octets[3]] == octets;
      case Domain(name) => assert p[n + 2..n + 2 + |name|] == name;
      case IPv6(raw) => assert p[n + 1..n + 17] == raw;
    }
  }

  lemma ConnectRoundTrip(reqid: nat, addr: Address, port: nat)
    requires FieldsFit(Connect(reqid, addr, port)) && port <= 0xFFFF
    ensures DecodePayload(EncodePayload(Connect(reqid, addr, port)).value) == Ok(Connect(reqid, addr, port))
  {
    var a := EncodeAddress(addr);
    var p := Tagged(0x01, reqid) + a + U16BE(port);
    AddressRoundTrip(addr, Tagged(0x01, reqid), U16BE(port));
    assert ReadU16BE(p, 3 + |a|) == port;
    assert p[0] == 0x01 && ReqidAt(p, 1) == reqid;
  }

  lemma AuthLayout(u: bytes, w: bytes, c: bytes, i: bytes, p: bytes)
    requires |u| < 256 && |w| < 256
    requires p == [0x20, LowByte(|u|)] + u + [LowByte(|w|)] + w + c + i
    ensures var pEnd := 3 + |u| + |w|;
            && |p| == pEnd + |c| + |i|
            && p[1] == |u| && p[2 + |u|] == |w|
            && p[2..2 + |u|] == u && p[3 + |u|..pEnd] == w
            && p[pEnd + |c|..] == i
  {
  }

  lemma ClientIdRoundTrip(id: Option<bytes>, p: bytes, offset: nat)
    requires EncodeClientId(id).Ok? && offset <= |p| && p[offset..] == EncodeClientId(id).value
    ensures DecodeClientId(p, offset) == Ok(if id == Some([]) then None else id)
  {
    var i := EncodeClientId(id).value;
    assert |p| == offset + |i|;
    if i != [] {
      assert p[offset] == p[offset..][0] == |id.value|;
      assert p[offset + 1..|p|] == p[offset..][1..] == id.value;
    }
  }

  lemma AuthRoundTrip(u: bytes, w: bytes, caps: seq<bytes>, id: Option<bytes>)
    requires FieldsFit(Auth(u, w, caps, id)) && EncodePayload(Auth(u, w, caps, id)).Ok?
    ensures DecodePayload(EncodePayload(Auth(u, w, caps, id)).value) ==
            Ok(Auth(u, w, caps, if id == Some([]) then None else id))
  {
    var c, i := EncodeCapabilities(caps).value, EncodeClientId(id).value;
    AuthDecodes(u, w, caps, id, c, i, [0x20, LowByte(|u|)] + u + [LowByte(|w|)] + w + c + i);
  }

  lemma AuthDecodes(u: bytes, w: bytes, caps: seq<bytes>, id: Option<bytes>, c: bytes, i: bytes, p: bytes)
    requires |u| < 256 && |w| < 256 && |caps| < 256
    requires EncodeCapabilities(caps) == Ok(c) && EncodeClientId(id) == Ok(i)
    requires p == [0x20, LowByte(|u|)] + u + [LowByte(|w|)] + w + c + i
    ensures p[0] == 0x20 && DecodeAuth(p) == Ok(Auth(u, w, caps, if id == Some([]) then None else id))
  {
    var before := [0x20, LowByte(|u|)] + u + [LowByte(|w|)] + w;
    var uEnd, pEnd := 2 + |u|, 3 + |u| + |w|;
    AuthLayout(u, w, c, i, p);
    CapabilitiesRoundTrip(caps, before, c, i);
    assert before + c + i == p && |before| == pEnd;
    ClientIdRoundTrip(id, p, pEnd + |c|);
    RestDecodes(p, uEnd, pEnd, pEnd + |c|, caps, if id == Some([]) then None else id);
  }

  lemma SliceWithin(p: bytes, from: nat, to: nat)
    requires from <= to <= |p|
    ensures Slice(p, from, to) == p[from..to]
  {
  }

  lemma RestDecodes(p: bytes, uEnd: nat, pEnd: nat, cEnd: nat, caps: seq<bytes>, id: Option<bytes>)
    requires 2 <= uEnd < pEnd <= |p|
    requires DecodeCapabilities(p, pEnd) == Ok((caps, cEnd)) && DecodeClientId(p, cEnd) == Ok(id)
    ensures DecodeAuthRest(p, uEnd, pEnd) == Ok(Auth(p[2..uEnd], p[uEnd + 1..pEnd], caps, id))
  {
    SliceWithin(p, 2, uEnd);
    SliceWithin(p, uEnd + 1, pEnd);
  }

  lemma DataRoundTrip(reqid: nat, data: bytes)
    requires reqid < 0x1_0000
    ensures DecodePayload(Tagged(0x02, reqid) + data) == Ok(Data(reqid, data))
  {
    var p := Tagged(0x02, reqid) + data;
    assert p[3..] == data && Slice(p, 3, |p|) == data;
  }

  lemma CapabilitiesFrameRoundTrip(caps: seq<bytes>, c: bytes)
    requires EncodeCapabilities(caps) == Ok(c) && |caps| < 256
    ensures DecodePayload([0x24] + c) == Ok(Capabilities(caps))
  {
    CapabilitiesRoundTrip(caps, [0x24], c, []);
    assert [0x24] + c + [] == [0x24] + c;
  }

  /** Frames whose fields fit are read back from their payload, but for an empty client id. */
  lemma PayloadRoundTrip(f: Frame)
    requires EncodePayload(f).Ok? && FieldsFit(f) && KeepsClientId(f)
    ensures DecodePayload(EncodePayload(f).value) == Ok(f)
  {
    match f {
      case Connect(reqid, addr, port) => ConnectRoundTrip(reqid, addr, port);
      case Auth(u, p, caps, id) => AuthRoundTrip(u, p, caps, id);
      case Capabilities(caps) => CapabilitiesFrameRoundTrip(caps, EncodeCapabilities(caps).value);
      case Data(reqid, data) => DataRoundTrip(reqid, data);
      case ErrorFrame(m) =>
        var p := [0x23, LowByte(|m|)] + m;
        assert p[2..] == m && Slice(p, 2, 2 + |m|) == m;
      case Ping(m) => assert ([0x10] + m)[1..] == m;
      case Pong(m) => assert ([0x11] + m)[1..] == m;
      case Padding(m) => assert ([0x30] + m)[1..] == m;
      case _ =>
    }
  }

  /** Whatever the decoder returns has fields that fit. */
  lemma DecodedFieldsFit(p: bytes)
    requires DecodePayload(p).Ok?
    ensures FieldsFit(DecodePayload(p).value)
  {
    if p != [] && p[0] == 0x20 {
      var pEnd := 2 + p[1] as nat + 1 + p[2 + p[1] as nat] as nat;
      if pEnd < |p| {
        CapListLength(p, pEnd + 1, p[pEnd] as nat);
      }
    } else if p != [] && p[0] == 0x24 && 1 < |p| {
      CapListLength(p, 2, p[1] as nat);
    }
  }

  lemma HeaderRoundTrip(p: bytes, rest: bytes)
    requires |p| <= MAX_FRAME_PAYLOAD
    ensures DecodeFrame(U16BE(|p|) + p + rest) == Sized(DecodePayload(p), 2 + |p|)
  {
    var b := U16BE(|p|) + p + rest;
    HeaderLength(p, rest);
    assert b[2..2 + |p|] == p;
  }

  lemma HeaderLength(p: bytes, rest: bytes)
    requires |p| <= MAX_FRAME_PAYLOAD
    ensures ReadU16BE(U16BE(|p|) + p + rest, 0) == |p|
  {
    U16RoundTrip(|p|, p + rest);
    Associates(U16BE(|p|), p, rest);
  }

  lemma EmptyClientIdIsLost(f: Frame)
    requires EncodePayload(f).Ok? && FieldsFit(f) && !KeepsClientId(f)
    ensures DecodePayload(EncodePayload(f).value) != Ok(f)
  {
    AuthRoundTrip(f.username, f.password, f.capabilities, f.clientId);
  }

  /**
   For every frame the encoder accepts: decoding gives the frame back, and exactly its bytes are
   consumed whatever follows, if and only if its fields fit and it has no empty client id.
   */
  lemma FrameRoundTripIff(f: Frame, rest: bytes)
    requires EncodeFrame(f).Ok?
    ensures var b := EncodeFrame(f).value;
            DecodeFrame(b + rest) == Ok((f, |b|)) <==> FieldsFit(f) && KeepsClientId(f)
  {
    var p := EncodePayload(f).value;
    HeaderRoundTrip(p, rest);
    if FieldsFit(f) && KeepsClientId(f) {
      PayloadRoundTrip(f);
    } else if FieldsFit(f) {
      EmptyClientIdIsLost(f);
    } else if DecodePayload(p).Ok? {
      DecodedFieldsFit(p);
    }
  }

  // ---------- Batches ----------

  function EncodeAll(fs: seq<Frame>): Result<bytes> {
    if fs == [] then Ok([])
    else
      match EncodeFrame(fs[0])
      case Err(m) => Err(m)
      case Ok(b) =>
        match EncodeAll(fs[1..])
        case Err(m) => Err(m)
        case Ok(rest) => Ok(b + rest)
  }

  ghost predicate AllFit(fs: seq<Frame>) {
    forall i :: 0 <= i < |fs| ==> FieldsFit(fs[i]) && KeepsClientId(fs[i])
  }

  lemma FirstOfBatch(p: bytes, e: bytes, rest: bytes)
    requires |p| <= MAX_FRAME_PAYLOAD
    requires e == U16BE(|p|) + p
    ensures DecodeFrame(e).Ok? ==>
              DecodeFrame(e).value.1 == |e| &&
              DecodeFrames(e + rest) == Prepend([DecodeFrame(e).value.0], DecodeFrames(rest))
    ensures DecodeFrame(e).Err? ==> DecodeFrames(e + rest).Err?
  {
    HeaderRoundTrip(p, []);
    assert e + [] == e;
    HeaderLength(p, rest);
    SplitsBack(e, rest);
  }

  /** A batch of encoded frames decodes to exactly the list that was encoded, if and only if all its fields fit. */
  lemma {:induction false} BatchRoundTripIff(fs: seq<Frame>)
    requires EncodeAll(fs).Ok?
    ensures DecodeFrames(EncodeAll(fs).value) == Ok(fs) <==> AllFit(fs)
    decreases |fs|
  {
    if fs != [] {
      var f, tail := fs[0], fs[1..];
      var e, rest := EncodeFrame(f).value, EncodeAll(tail).value;
      BatchRoundTripIff(tail);
      FirstOfBatch(EncodePayload(f).value, e, rest);
      FrameRoundTripIff(f, []);
      assert e + [] == e;
      assert [f] + tail == fs;
      AllFitCons(f, tail);
      if DecodeFrames(e + rest).Ok? {
        var g, more := DecodeFrame(e).value.0, DecodeFrames(rest).value;
        assert ([g] + more)[0] == g && ([g] + more)[1..] == more;
      }
    }
  }

  lemma AllFitCons(f: Frame, tail: seq<Frame>)
    ensures AllFit([f] + tail) <==> FieldsFit(f) && KeepsClientId(f) && AllFit(tail)
  {
    var fs := [f] + tail;
    assert fs[0] == f;
    assert forall i :: 0 <= i < |tail| ==> tail[i] == fs[i + 1];
  }
}

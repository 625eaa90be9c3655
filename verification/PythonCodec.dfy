/** The frame codec of the Python client, client/tunnel_client.py, and how it agrees with the server's. */
module PythonCodec {
  import opened Bytes
  import opened Protocol
  import opened ProtocolTheorems

  /** `struct.unpack('!H', p[i:i+2])`, which raises unless both bytes are there. */
  predicate HasU16(p: bytes, i: nat) {
    i + 2 <= |p|
  }

  /** The frame types both sides define, other than AUTH. */
  predicate IsShared(f: Frame) {
    !f.Auth? && !f.Padding? && !f.Capabilities? && !f.Unknown?
  }

  /** The address at `offset` and the offset behind it. */
  function DecodePyAddress(p: bytes, offset: nat): Result<(Address, nat)> {
    if offset >= |p| then Err("IndexError")
    else if p[offset] == 0x03 then
      if offset + 1 >= |p| then Err("IndexError")
      else
        var end := offset + 2 + p[offset + 1] as nat;
        Ok((Domain(Slice(p, offset + 2, end)), end))
    else if p[offset] == 0x01 then Ok((IPv4(Slice(p, offset + 1, offset + 5)), offset + 5))
    else if p[offset] == 0x04 then Ok((IPv6(Slice(p, offset + 1, offset + 17)), offset + 17))
    else Err("Unsupported ATYP")
  }

  function DecodePy(p: bytes): Result<Frame> {
    if p == [] then Err("IndexError")
    else if p[0] == 0x01 then
      if !HasU16(p, 1) then Err("struct.error")
      else
        match DecodePyAddress(p, 3)
        case Err(m) => Err(m)
        case Ok((addr, end)) =>
          if HasU16(p, end) then Ok(Connect(ReqidAt(p, 1), addr, ReadU16BE(p, end))) else Err("struct.error")
    else if p[0] in {0x02, 0x03, 0x04, 0x81} then
      if !HasU16(p, 1) then Err("struct.error")
      else if p[0] == 0x02 then Ok(Data(ReqidAt(p, 1), p[3..]))
      else if p[0] == 0x03 then Ok(CloseStream(ReqidAt(p, 1)))
      else if p[0] == 0x04 then Ok(ConnectOk(ReqidAt(p, 1)))
      else Ok(ConnectFailed(ReqidAt(p, 1)))
    else if p[0] == 0x23 then
      if |p| < 2 then Err("IndexError") else Ok(ErrorFrame(Slice(p, 2, 2 + p[1] as nat)))
    else if p[0] == 0x20 then
      if |p| < 2 || 2 + p[1] as nat >= |p| then Err("IndexError")
      else
        var uEnd := 2 + p[1] as nat;
        Ok(Auth(p[2..uEnd], Slice(p, uEnd + 1, uEnd + 1 + p[uEnd] as nat), [], None))
    else if p[0] == 0x10 then Ok(Ping(p[1..]))
    else if p[0] == 0x11 then Ok(Pong(p[1..]))
    else if p[0] == 0x21 then Ok(AuthOk)
    else if p[0] == 0x22 then Ok(AuthFail)
    else Ok(Unknown(Some(p[0]), []))
  }

  /** The branch for CONNECT. */
  method DecodeConnectPy(p: bytes, start: nat) returns (r: Result<Frame>)
    requires p != [] && p[0] == 0x01 && start == 1
    ensures r == DecodePy(p)
  {
    var offset := start;
    if !HasU16(p, offset) {
      return Err("struct.error");
    }
    var reqid := ReadU16BE(p, offset);
    offset := offset + 2;
    if offset >= |p| {
      return Err("IndexError");
    }
    var atyp := p[offset];
    offset := offset + 1;
    var addr: Address;
    if atyp == 0x03 {
      if offset >= |p| {
        return Err("IndexError");
      }
      var len := p[offset] as nat;
      offset := offset + 1;
      addr := Domain(Slice(p, offset, offset + len));
      offset := offset + len;
    } else if atyp == 0x01 {
      addr := IPv4(Slice(p, offset, offset + 4));
      offset := offset + 4;
    } else if atyp == 0x04 {
      addr := IPv6(Slice(p, offset, offset + 16));
      offset := offset + 16;
    } else {
      return Err("Unsupported ATYP");
    }
    if !HasU16(p, offset) {
      return Err("struct.error");
    }
    return Ok(Connect(reqid, addr, ReadU16BE(p, offset)));
  }

  /** The decoder as written: an offset advances over the payload. */
  method DecodePayloadPy(p: bytes) returns (r: Result<Frame>)
    ensures r == DecodePy(p)
  {
    if |p| == 0 {
      return Err("IndexError");
    }
    var kind: byte := p[0];
    var offset: nat := 1;
    if kind == 0x01 {
      r := DecodeConnectPy(p, offset);
      return;
    } else if kind == 0x20 {
      if offset >= |p| {
        return Err("IndexError");
      }
      var userLen := p[offset] as nat;
      offset := offset + 1;
      var user := Slice(p, offset, offset + userLen);
      offset := offset + userLen;
      if offset >= |p| {
        return Err("IndexError");
      }
      assert user == p[2..2 + userLen];
      var passLen := p[offset] as nat;
      offset := offset + 1;
      return Ok(Auth(user, Slice(p, offset, offset + passLen), [], None));
    } else if kind in {0x02, 0x03, 0x04, 0x81} {
      if !HasU16(p, offset) {
        return Err("struct.error");
      }
      var reqid := ReadU16BE(p, offset);
      offset := offset + 2;
      return Ok(if kind == 0x02 then Data(reqid, p[offset..])
                else if kind == 0x03 then CloseStream(reqid)
                else if kind == 0x04 then ConnectOk(reqid)
                else ConnectFailed(reqid));
    } else if kind == 0x23 {
      if offset >= |p| {
        return Err("IndexError");
      }
      var len := p[offset] as nat;
      offset := offset + 1;
      return Ok(ErrorFrame(Slice(p, offset, offset + len)));
    } else if kind == 0x10 {
      return Ok(Ping(p[offset..]));
    } else if kind == 0x11 {
      return Ok(Pong(p[offset..]));
    }
    return Ok(if kind == 0x21 then AuthOk else if kind == 0x22 then AuthFail else Unknown(Some(kind), []));
  }

  /** Whatever the client reads out of a payload of a shared type, the server reads too. */
  lemma ClientReadsAsServer(p: bytes)
    requires DecodePy(p).Ok? && IsShared(DecodePy(p).value)
    ensures DecodePayload(p) == DecodePy(p)
  {
    if p[0] == 0x01 {
      var (addr, end) := DecodePyAddress(p, 3).value;
      assert DecodeAddress(p, 3).Ok? && DecodeAddress(p, 3).value.1 == end;
      if p[3] == 0x01 {
        assert addr.octets == Octets(p, 4);
      }
    } else if p[0] == 0x02 {
      assert Slice(p, 3, |p|) == p[3..];
    }
  }

  predicate SharedType(kind: byte) {
    kind in {0x01, 0x02, 0x03, 0x04, 0x81, 0x10, 0x11, 0x21, 0x22, 0x23}
  }

  /** Both sides read the same out of a shared type, but that the client wants the id or length byte there. */
  lemma ClientReadsIff(p: bytes)
    requires p != [] && SharedType(p[0])
    ensures DecodePy(p).Ok? <==>
            && DecodePayload(p).Ok? && (p[0] in {0x02, 0x03, 0x04, 0x81} ==> |p| >= 3) && (p[0] == 0x23 ==> |p| >= 2)
    ensures DecodePy(p).Ok? ==> DecodePayload(p) == DecodePy(p)
  {
    if DecodePy(p).Ok? {
      ClientReadsAsServer(p);
    }
  }

  /** Every frame of a shared type that the server encodes with fitting fields is read back by the client. */
  lemma ServerToClient(f: Frame)
    requires EncodePayload(f).Ok? && IsShared(f) && FieldsFit(f)
    ensures DecodePy(EncodePayload(f).value) == Ok(f)
  {
    var p := EncodePayload(f).value;
    PayloadRoundTrip(f);
    if f.Connect? {
      var a := EncodeAddress(f.addr);
      assert p[3] == a[0];
      assert f.addr.Domain? ==> p[4] == a[1];
      assert DecodePy(p).Ok?;
    }
    if DecodePy(p).Ok? {
      ClientReadsAsServer(p);
    }
  }

  // ---------- The client's encoder ----------

  /** `bytes(...)`, `append` and `pack` raise where the server's encoder keeps the low bits. */
  function EncodePyAddress(a: Address): Result<bytes> {
    match a
    case Domain(name) => if |name| > 255 then Err("ValueError") else Ok([0x03, LowByte(|name|)] + name)
    case IPv4(octets) =>
      if forall i :: 0 <= i < |octets| ==> octets[i] < 256 then Ok([0x01] + LowBytes(octets)) else Err("ValueError")
    case IPv6(_) => Ok([0x04])
  }

  function EncodePyPayload(f: Frame): Result<bytes> {
    match f
    case Auth(u, w, _, _) =>
      if |u| > 255 || |w| > 255 then Err("struct.error")
      else Ok([0x20, LowByte(|u|)] + u + [LowByte(|w|)] + w)
    case Connect(reqid, addr, port) =>
      if reqid > 0xFFFF || port > 0xFFFF then Err("struct.error")
      else
        (match EncodePyAddress(addr)
         case Err(m) => Err(m)
         case Ok(a) => Ok(Tagged(0x01, reqid) + a + U16BE(port)))
    case Data(reqid, data) =>
      if reqid > 0xFFFF then Err("struct.error")
      else if |data| > MAX_DATA_CHUNK then Err("DATA frame too large")
      else Ok(Tagged(0x02, reqid) + data)
    case CloseStream(reqid) => if reqid > 0xFFFF then Err("struct.error") else Ok(Tagged(0x03, reqid))
    case ConnectOk(reqid) => if reqid > 0xFFFF then Err("struct.error") else Ok(Tagged(0x04, reqid))
    case ConnectFailed(reqid) => if reqid > 0xFFFF then Err("struct.error") else Ok(Tagged(0x81, reqid))
    case Ping(payload) => Ok([0x10] + payload)
    case Pong(payload) => Ok([0x11] + payload)
    case AuthOk => Ok([0x21])
    case AuthFail => Ok([0x22])
    case ErrorFrame(m) => if |m| > 255 then Err("ValueError") else Ok([0x23, LowByte(|m|)] + m)
    case _ => Err("not sent by the client")
  }

  /** The address bytes the client writes are an address exactly for names and dotted quads. */
  predicate Addressable(f: Frame) {
    f.Connect? ==> !f.addr.IPv6? && (f.addr.IPv4? ==> |f.addr.octets| == 4)
  }

  /**
   A frame of a shared type that the client manages to encode is read back by the server if and only if
   it is not a CONNECT to an IPv6 address or to a dotted name without four parts.
   */
  lemma ClientToServerIff(f: Frame)
    requires EncodePyPayload(f).Ok? && IsShared(f)
    ensures DecodePayload(EncodePyPayload(f).value) == Ok(f) <==> Addressable(f)
  {
    var p := EncodePyPayload(f).value;
    if Addressable(f) {
      assert EncodePayload(f) == Ok(p);
      PayloadRoundTrip(f);
    } else if DecodePayload(p).Ok? {
      DecodedFieldsFit(p);
    }
  }

  /** The client reads its own AUTH frame back. */
  lemma ClientAuthRoundTrip(u: bytes, w: bytes)
    requires |u| < 256 && |w| < 256
    ensures EncodePyPayload(Auth(u, w, [], None)).Ok?
    ensures DecodePy(EncodePyPayload(Auth(u, w, [], None)).value) == Ok(Auth(u, w, [], None))
  {
    AuthLayout(u, w, [], [], EncodePyPayload(Auth(u, w, [], None)).value);
  }

  /** What the client can encode: every number fits its bytes, and a DATA frame is not too large. */
  lemma ClientEncodesIff(f: Frame)
    requires IsShared(f)
    ensures EncodePyPayload(f).Ok? <==>
            && (f.Connect? ==> f.reqid <= 0xFFFF && f.port <= 0xFFFF)
            && (f.Connect? && f.addr.Domain? ==> |f.addr.name| <= 255)
            && (f.Connect? && f.addr.IPv4? ==> forall i :: 0 <= i < |f.addr.octets| ==> f.addr.octets[i] < 256)
            && (f.Data? ==> f.reqid <= 0xFFFF && |f.data| <= 65_532)
            && (f.CloseStream? || f.ConnectOk? || f.ConnectFailed? ==> f.reqid <= 0xFFFF)
            && (f.ErrorFrame? ==> |f.message| <= 255)
  {
  }

  /** The payload with its length packed in two bytes, which fails above 65535. */
  function EncodePyFrame(f: Frame): Result<bytes> {
    match EncodePyPayload(f)
    case Err(m) => Err(m)
    case Ok(p) => if |p| > MAX_FRAME_PAYLOAD then Err("struct.error") else Ok(U16BE(|p|) + p)
  }

  /** The body of one post of the client. */
  function EncodePyAll(fs: seq<Frame>): Result<bytes> {
    if fs == [] then Ok([])
    else
      match EncodePyFrame(fs[0])
      case Err(m) => Err(m)
      case Ok(b) =>
        match EncodePyAll(fs[1..])
        case Err(m) => Err(m)
        case Ok(rest) => Ok(b + rest)
  }

  /** What the client can say to an open session. */
  predicate Sayable(f: Frame) {
    IsShared(f) && Addressable(f)
  }

  lemma ClientEncodesAsServer(f: Frame)
    requires EncodePyFrame(f).Ok? && Sayable(f)
    ensures EncodeFrame(f) == EncodePyFrame(f) && FieldsFit(f) && KeepsClientId(f)
  {
  }

  lemma FirstIsEncoded(fs: seq<Frame>)
    requires fs != [] && EncodePyAll(fs).Ok?
    ensures EncodePyFrame(fs[0]).Ok? && EncodePyAll(fs[1..]).Ok?
  {
  }

  /** A post body that the client encodes is the same batch that the server would encode. */
  lemma {:induction false} ClientBatchIsServerBatch(fs: seq<Frame>)
    requires EncodePyAll(fs).Ok? && forall i :: 0 <= i < |fs| ==> Sayable(fs[i])
    ensures EncodeAll(fs) == EncodePyAll(fs) && AllFit(fs)
    decreases |fs|
  {
    if fs != [] {
      FirstIsEncoded(fs);
      ClientEncodesAsServer(fs[0]);
      ClientBatchIsServerBatch(fs[1..]);
      AllFitCons(fs[0], fs[1..]);
      assert [fs[0]] + fs[1..] == fs;
    }
  }

  /**
   The AUTH frame the client sends carries no capabilities. The server rejects it, unless it is exactly 33
   bytes long: then it accepts it with the whole rest of the frame as client id.
   */
  lemma LegacyAuthIsMisread(u: bytes, w: bytes)
    requires |u| < 256 && |w| < 256
    ensures var p := EncodePyPayload(Auth(u, w, [], None)).value;
            && (DecodePayload(p).Ok? <==> |u| + |w| == 30)
            && (DecodePayload(p).Ok? ==> DecodePayload(p).value == Auth(u, w, [], Some(p[1..])))
  {
    var p := EncodePyPayload(Auth(u, w, [], None)).value;
    AuthLayout(u, w, [], [], p);
    assert DecodeCapabilities(p, |p|) == Ok(([], 0));
    assert p[0] == 0x20;
    assert Slice(p, 2, 2 + |u|) == u && Slice(p, 3 + |u|, |p|) == w;
    assert |u| + |w| == 30 ==> p[1..33] == p[1..];
  }
}

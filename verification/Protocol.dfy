/** The tunnel frame codec of tunnel/protocol.js. Text is kept as its UTF-8 bytes. */
module Protocol {
  import opened Bytes

  datatype Address =
    | IPv4(octets: seq<nat>)
    | Domain(name: bytes)
    | IPv6(raw: bytes)

  datatype Frame =
    | Connect(reqid: nat, addr: Address, port: nat)
    | Data(reqid: nat, data: bytes)
    | CloseStream(reqid: nat)
    | ConnectOk(reqid: nat)
    | ConnectFailed(reqid: nat)
    | Ping(payload: bytes)
    | Pong(payload: bytes)
    | Padding(data: bytes)
    | AuthOk
    | AuthFail
    | Auth(username: bytes, password: bytes, capabilities: seq<bytes>, clientId: Option<bytes>)
    | Capabilities(capabilities: seq<bytes>)
    | ErrorFrame(message: bytes)
    | Unknown(kind: Option<byte>, data: bytes)

  const MAX_FRAME_PAYLOAD := 0xFFFF
  const MAX_DATA_CHUNK := MAX_FRAME_PAYLOAD - 3

  // ---------- JavaScript buffer reads ----------

  /** `buffer.slice(from, to)`: bounds beyond the end are clamped. */
  function Slice(p: bytes, from: nat, to: nat): bytes {
    var hi := if to < |p| then to else |p|;
    if from < hi then p[from..hi] else []
  }

  /** A byte used in bit arithmetic: a missing one counts as zero. */
  function ByteOrZero(p: bytes, i: nat): byte {
    if i < |p| then p[i] else 0
  }

  function ReqidAt(p: bytes, i: nat): nat {
    ByteOrZero(p, i) as nat * 256 + ByteOrZero(p, i + 1) as nat
  }

  // ---------- Encoder ----------

  function EncodeCapList(caps: seq<bytes>): Result<bytes> {
    if caps == [] then Ok([])
    else if |caps[0]| > 255 then Err("Capability too long")
    else
      match EncodeCapList(caps[1..])
      case Ok(rest) => Ok([|caps[0]| as byte] + caps[0] + rest)
      case Err(m) => Err(m)
  }

  function EncodeCapabilities(caps: seq<bytes>): Result<bytes> {
    match EncodeCapList(caps)
    case Ok(list) => Ok([LowByte(|caps|)] + list)
    case Err(m) => Err(m)
  }

  function LowBytes(parts: seq<nat>): bytes {
    seq(|parts|, i requires 0 <= i < |parts| => LowByte(parts[i]))
  }

  function EncodeAddress(a: Address): bytes {
    match a
    case IPv4(octets) => [0x01] + LowBytes(octets)
    case Domain(name) => [0x03, LowByte(|name|)] + name
    case IPv6(raw) => [0x04] + raw
  }

  function Tagged(kind: byte, reqid: nat): bytes {
    [kind, LowByte(reqid / 256), LowByte(reqid)]
  }

  function EncodeClientId(id: Option<bytes>): Result<bytes> {
    match id
    case None => Ok([])
    case Some(text) =>
      if text == [] then Ok([])
      else if |text| > 255 then Err("Client id too long")
      else Ok([|text| as byte] + text)
  }

  /** The frame without its length prefix. */
  function EncodePayload(f: Frame): Result<bytes> {
    match f
    case Connect(reqid, addr, port) =>
      if port > 0xFFFF then Err("port out of range")
      else Ok(Tagged(0x01, reqid) + EncodeAddress(addr) + U16BE(port))
    case Data(reqid, data) => Ok(Tagged(0x02, reqid) + data)
    case CloseStream(reqid) => Ok(Tagged(0x03, reqid))
    case ConnectOk(reqid) => Ok(Tagged(0x04, reqid))
    case ConnectFailed(reqid) => Ok(Tagged(0x81, reqid))
    case Ping(payload) => Ok([0x10] + payload)
    case Pong(payload) => Ok([0x11] + payload)
    case Padding(data) => Ok([0x30] + data)
    case AuthOk => Ok([0x21])
    case AuthFail => Ok([0x22])
    case Auth(u, p, caps, id) =>
      (match EncodeCapabilities(caps)
       case Err(m) => Err(m)
       case Ok(c) =>
         match EncodeClientId(id)
         case Err(m) => Err(m)
         case Ok(i) => Ok([0x20, LowByte(|u|)] + u + [LowByte(|p|)] + p + c + i))
    case Capabilities(caps) =>
      (match EncodeCapabilities(caps)
       case Err(m) => Err(m)
       case Ok(c) => Ok([0x24] + c))
    case ErrorFrame(message) => Ok([0x23, LowByte(|message|)] + message)
    case Unknown(_, _) => Err("Unknown frame type")
  }

  function EncodeFrame(f: Frame): Result<bytes> {
    match EncodePayload(f)
    case Err(m) => Err(m)
    case Ok(p) => if |p| > MAX_FRAME_PAYLOAD then Err("Frame too large") else Ok(U16BE(|p|) + p)
  }

  // ---------- Decoder ----------

  /** `count` capabilities from `offset`, with the offset behind the last. */
  function DecodeCapList(p: bytes, offset: nat, count: nat): Result<(seq<bytes>, nat)>
    decreases count
  {
    if count == 0 then Ok(([], offset))
    else if offset >= |p| then Err("Capabilities frame too short")
    else if offset + 1 + p[offset] as nat > |p| then Err("Capability extends beyond payload")
    else
      var next := offset + 1 + p[offset] as nat;
      match DecodeCapList(p, next, count - 1)
      case Ok((rest, end)) => Ok(([p[offset + 1..next]] + rest, end))
      case Err(m) => Err(m)
  }

  /** With no byte left the list is empty and the reported offset is zero, not `offset`. */
  function DecodeCapabilities(p: bytes, offset: nat): Result<(seq<bytes>, nat)> {
    if offset >= |p| then Ok(([], 0)) else DecodeCapList(p, offset + 1, p[offset] as nat)
  }

  function Octets(p: bytes, i: nat): seq<nat> {
    [ByteOrZero(p, i) as nat, ByteOrZero(p, i + 1) as nat, ByteOrZero(p, i + 2) as nat, ByteOrZero(p, i + 3) as nat]
  }

  /** The address at `offset` and the offset behind it; missing bytes make the later port read fail. */
  function DecodeAddress(p: bytes, offset: nat): Result<(Address, nat)> {
    if offset >= |p| then Err("Unknown ATYP")
    else if p[offset] == 0x01 then
      Ok((IPv4(Octets(p, offset + 1)), offset + 5))
    else if p[offset] == 0x03 then
      if offset + 1 >= |p| then Err("offset is out of range")
      else
        var end := offset + 2 + p[offset + 1] as nat;
        Ok((Domain(Slice(p, offset + 2, end)), end))
    else if p[offset] == 0x04 then Ok((IPv6(Slice(p, offset + 1, offset + 17)), offset + 17))
    else Err("Unknown ATYP")
  }

  function DecodeConnect(p: bytes): Result<Frame> {
    match DecodeAddress(p, 3)
    case Err(m) => Err(m)
    case Ok((addr, end)) =>
      if end + 2 > |p| then Err("offset is out of range")
      else Ok(Connect(ReqidAt(p, 1), addr, ReadU16BE(p, end)))
  }

  /** What follows the capabilities of an AUTH frame. */
  function DecodeClientId(p: bytes, offset: nat): Result<Option<bytes>> {
    if offset < |p| then
      var end := offset + 1 + p[offset] as nat;
      if end > |p| then Err("Client id extends beyond payload")
      else if end != |p| then Err("Auth frame has trailing bytes")
      else Ok(Some(p[offset + 1..end]))
    else if offset != |p| then Err("Auth frame has trailing bytes")
    else Ok(None)
  }

  /** A missing length byte turns the offset into NaN, which the trailing-bytes test rejects. */
  function DecodeAuth(p: bytes): Result<Frame> {
    if 1 >= |p| then Err("Auth frame has trailing bytes")
    else
      var uEnd := 2 + p[1] as nat;
      if uEnd >= |p| then Err("Auth frame has trailing bytes")
      else
        DecodeAuthRest(p, uEnd, uEnd + 1 + p[uEnd] as nat)
  }

  /** The user name ends at `uEnd` and the password at `pEnd`. */
  function DecodeAuthRest(p: bytes, uEnd: nat, pEnd: nat): Result<Frame> {
    match DecodeCapabilities(p, pEnd)
    case Err(m) => Err(m)
    case Ok((caps, offset)) =>
      match DecodeClientId(p, offset)
      case Err(m) => Err(m)
      case Ok(id) => Ok(Auth(Slice(p, 2, uEnd), Slice(p, uEnd + 1, pEnd), caps, id))
  }

  function DecodePayload(p: bytes): Result<Frame> {
    if p == [] then Ok(Unknown(None, []))
    else if p[0] == 0x01 then DecodeConnect(p)
    else if p[0] == 0x02 then Ok(Data(ReqidAt(p, 1), Slice(p, 3, |p|)))
    else if p[0] == 0x03 then Ok(CloseStream(ReqidAt(p, 1)))
    else if p[0] == 0x04 then Ok(ConnectOk(ReqidAt(p, 1)))
    else if p[0] == 0x81 then Ok(ConnectFailed(ReqidAt(p, 1)))
    else if p[0] == 0x10 then Ok(Ping(p[1..]))
    else if p[0] == 0x11 then Ok(Pong(p[1..]))
    else if p[0] == 0x30 then Ok(Padding(p[1..]))
    else if p[0] == 0x21 then Ok(AuthOk)
    else if p[0] == 0x22 then Ok(AuthFail)
    else if p[0] == 0x20 then DecodeAuth(p)
    else if p[0] == 0x24 then
      match DecodeCapabilities(p, 1)
      case Ok((caps, _)) => Ok(Capabilities(caps))
      case Err(m) => Err(m)
    else if p[0] == 0x23 then Ok(ErrorFrame(Slice(p, 2, 2 + ByteOrZero(p, 1) as nat)))
    else Ok(Unknown(Some(p[0]), p[1..]))
  }

  /** The first frame of `b` and the number of bytes it takes. */
  function DecodeFrame(b: bytes): Result<(Frame, nat)> {
    if |b| < 2 then Err("Buffer too short")
    else
      var end := 2 + ReadU16BE(b, 0);
      if |b| < end then Err("Incomplete frame")
      else
        Sized(DecodePayload(b[2..end]), end)
  }

  /** All frames of a batch body; one bad frame rejects the batch. */
  function DecodeFrames(b: bytes): Result<seq<Frame>>
    decreases |b|
  {
    if b == [] then Ok([])
    else if |b| < 2 then Err("Incomplete frame header")
    else
      var end := 2 + ReadU16BE(b, 0);
      if end > |b| then Err("Incomplete frame")
      else
        match DecodeFrame(b[..end])
        case Err(m) => Err(m)
        case Ok((f, _)) => Prepend([f], DecodeFrames(b[end..]))
  }

  function Sized(r: Result<Frame>, size: nat): Result<(Frame, nat)> {
    match r
    case Ok(f) => Ok((f, size))
    case Err(m) => Err(m)
  }

  function Prepend(fs: seq<Frame>, r: Result<seq<Frame>>): Result<seq<Frame>> {
    match r
    case Ok(rest) => Ok(fs + rest)
    case Err(m) => Err(m)
  }

  // ---------- The loops of the source ----------

  method EncodeCapabilitiesLoop(caps: seq<bytes>) returns (r: Result<bytes>)
    ensures r == EncodeCapabilities(caps)
  {
    var out: bytes := [LowByte(|caps|)];
    assert caps[0..] == caps;
    for i := 0 to |caps|
      invariant EncodeCapabilities(caps) == Behind(out, EncodeCapList(caps[i..]))
    {
      assert caps[i..][1..] == caps[i + 1..];
      if |caps[i]| > 255 {
        return Err("Capability too long");
      }
      ghost var before, head := out, [|caps[i]| as byte] + caps[i];
      out := out + [|caps[i]| as byte] + caps[i];
      assert forall rest: bytes :: before + (head + rest) == out + rest;
    }
    assert out + [] == out;
    return Ok(out);
  }

  ghost function Behind(out: bytes, r: Result<bytes>): Result<bytes> {
    match r
    case Ok(rest) => Ok(out + rest)
    case Err(m) => Err(m)
  }

  method DecodeCapabilitiesLoop(p: bytes, start: nat) returns (r: Result<(seq<bytes>, nat)>)
    ensures r == DecodeCapabilities(p, start)
  {
    if start >= |p| {
      return Ok(([], 0));
    }
    var count := p[start] as nat;
    var offset: nat := start + 1;
    var caps: seq<bytes> := [];
    assert DecodeCapabilities(p, start) == BehindCaps([], DecodeCapList(p, offset, count)) by {
      assert forall rest: seq<bytes> :: [] + rest == rest;
    }
    for i := 0 to count
      invariant DecodeCapabilities(p, start) == BehindCaps(caps, DecodeCapList(p, offset, count - i))
    {
      if offset >= |p| {
        return Err("Capabilities frame too short");
      }
      var len := p[offset] as nat;
      offset := offset + 1;
      if offset + len > |p| {
        return Err("Capability extends beyond payload");
      }
      ghost var before, cap := caps, p[offset..offset + len];
      caps := caps + [p[offset..offset + len]];
      assert forall rest: seq<bytes> :: before + ([cap] + rest) == caps + rest;
      offset := offset + len;
    }
    assert caps + [] == caps;
    return Ok((caps, offset));
  }

  ghost function BehindCaps(caps: seq<bytes>, r: Result<(seq<bytes>, nat)>): Result<(seq<bytes>, nat)> {
    match r
    case Ok((rest, end)) => Ok((caps + rest, end))
    case Err(m) => Err(m)
  }

  method DecodeFramesLoop(buffer: bytes) returns (r: Result<seq<Frame>>)
    ensures r == DecodeFrames(buffer)
  {
    var frames: seq<Frame> := [];
    var offset: nat := 0;
    assert buffer[0..] == buffer && forall rest: seq<Frame> :: [] + rest == rest;
    while offset < |buffer|
      invariant 0 <= offset <= |buffer|
      invariant DecodeFrames(buffer) == Prepend(frames, DecodeFrames(buffer[offset..]))
    {
      if |buffer| - offset < 2 {
        return Err("Incomplete frame header");
      }
      var end := offset + 2 + ReadU16BE(buffer, offset);
      if end > |buffer| {
        return Err("Incomplete frame");
      }
      var tail := buffer[offset..];
      assert tail[..end - offset] == buffer[offset..end] && tail[end - offset..] == buffer[end..];
      match DecodeFrame(buffer[offset..end]) {
        case Err(m) => return Err(m);
        case Ok((f, _)) =>
          assert forall rest: seq<Frame> :: frames + ([f] + rest) == (frames + [f]) + rest;
          frames := frames + [f];
      }
      offset := end;
    }
    assert frames + [] == frames;
    return Ok(frames);
  }
}

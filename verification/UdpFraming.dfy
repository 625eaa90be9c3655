/**
 UDP carried over TCP: length-prefixed frames (client/proxy_core.py, socks5/server.js) holding the datagrams of
 section 7 of RFC 1928.
 */
module UdpFraming {
  import opened Bytes

  // ---------- Frames ----------

  /** `write_udp_frame` and `datagram_received`: the length is packed in two bytes, which fails above 65535. */
  function WriteUdpFrame(data: bytes): Result<bytes> {
    if |data| > 0xFFFF then Err("'H' format requires 0 <= number <= 65535") else Ok(U16BE(|data|) + data)
  }

  /** The frames complete in `stream`, the bytes behind them, and whether a frame of length zero stopped it. */
  datatype Extracted = Extracted(frames: seq<bytes>, tail: bytes, invalid: bool)

  /** `stream` starts with a frame that is complete. */
  predicate StartsWithFrame(stream: bytes) {
    |stream| >= 2 && 0 < ReadU16BE(stream, 0) <= |stream| - 2
  }

  function FirstFrame(stream: bytes): bytes
    requires StartsWithFrame(stream)
  {
    stream[2..2 + ReadU16BE(stream, 0)]
  }

  function Behind(stream: bytes): bytes
    requires StartsWithFrame(stream)
  {
    stream[2 + ReadU16BE(stream, 0)..]
  }

  /** What the whole `stream` holds. */
  function Batch(stream: bytes): Extracted
    decreases |stream|
  {
    if StartsWithFrame(stream) then
      var rest := Batch(Behind(stream));
      rest.(frames := [FirstFrame(stream)] + rest.frames)
    else
      Extracted([], stream, |stream| >= 2 && ReadU16BE(stream, 0) == 0)
  }

  function Concat(chunks: seq<bytes>): bytes {
    if chunks == [] then [] else Concat(chunks[..|chunks| - 1]) + chunks[|chunks| - 1]
  }

  /** One `data` event; a destroyed socket delivers no more. */
  function Feed(s: Extracted, chunk: bytes): Extracted {
    if s.invalid then s
    else
      var more := Batch(s.tail + chunk);
      more.(frames := s.frames + more.frames)
  }

  function FeedAll(chunks: seq<bytes>): Extracted {
    if chunks == [] then Extracted([], [], false) else Feed(FeedAll(chunks[..|chunks| - 1]), chunks[|chunks| - 1])
  }

  /** What the reader of the client does at a stream position. */
  datatype Reading = Frame(data: bytes, rest: bytes) | Incomplete | InvalidLength

  function ReadUdpFrame(stream: bytes): Reading {
    if |stream| < 2 then Incomplete
    else
      var n := ReadU16BE(stream, 0);
      if n == 0 || n > 65535 then InvalidLength
      else if |stream| - 2 < n then Incomplete
      else Frame(stream[2..2 + n], stream[2 + n..])
  }

  // ---------- Datagrams ----------

  datatype Host = V4(octets: bytes) | Name(text: bytes) | V6(octets: bytes)

  datatype Datagram = Datagram(host: Host, port: nat, data: bytes)

  const MIN_PAYLOAD := 10

  function EncodeHost(h: Host): bytes {
    match h
    case V4(octets) => [1] + octets
    case Name(text) => [3, LowByte(|text|)] + text
    case V6(octets) => [4] + octets
  }

  /** A request header with RSV and FRAG zero, then the data. */
  function EncodeDatagram(d: Datagram): bytes {
    [0, 0, 0] + EncodeHost(d.host) + U16BE(d.port) + d.data
  }

  predicate WellFormed(d: Datagram) {
    && d.port < 0x1_0000
    && match d.host
       case V4(octets) => |octets| == 4
       case Name(text) => |text| < 256
       case V6(octets) => |octets| == 16
  }

  /** The header parse of `handleUdpAssociate`; None where it moves on to the next frame. */
  function ParseDatagram(payload: bytes): Option<Datagram> {
    if |payload| < MIN_PAYLOAD then None
    else if payload[0] != 0 || payload[1] != 0 then None
    else if payload[2] != 0 then None
    else
      match payload[3]
      case 1 => Sent(V4(payload[4..8]), payload, 8)
      case 3 =>
        var len := payload[4] as nat;
        if |payload| < 5 + len + 2 then None else Sent(Name(payload[5..5 + len]), payload, 5 + len)
      case 4 => if |payload| < 22 then None else Sent(V6(payload[4..20]), payload, 20)
      case _ => None
  }

  /** The port is at `offset` and the data behind it; a datagram without data is not sent. */
  function Sent(host: Host, payload: bytes, offset: nat): Option<Datagram>
    requires offset + 2 <= |payload|
  {
    var data := payload[offset + 2..];
    if data == [] then None else Some(Datagram(host, ReadU16BE(payload, offset), data))
  }

  /** The datagrams handed to the socket for a list of frames. */
  function SentFor(frames: seq<bytes>): seq<Datagram> {
    if frames == [] then []
    else
      var before := SentFor(frames[..|frames| - 1]);
      match ParseDatagram(frames[|frames| - 1])
      case Some(d) => before + [d]
      case None => before
  }

  lemma Regroup(before: seq<bytes>, frame: bytes, after: seq<bytes>)
    ensures before + ([frame] + after) == (before + [frame]) + after
    ensures (before + [frame])[..|before|] == before
    ensures ([frame] + after)[1..] == after && before + [] == before && [] + after == after
  {
  }

  /** Taking the first frame off `stream` moves it from the frames to come to the frames so far. */
  lemma TakeFirst(frames: seq<bytes>, stream: bytes, n: nat)
    requires |stream| >= 2 && n == ReadU16BE(stream, 0) && 0 < n <= |stream| - 2
    ensures var rest := Batch(stream[2 + n..]);
            Batch(stream) == rest.(frames := [stream[2..2 + n]] + rest.frames)
            && frames + Batch(stream).frames == (frames + [stream[2..2 + n]]) + rest.frames
  {
    Regroup(frames, stream[2..2 + n], Batch(stream[2 + n..]).frames);
  }

  lemma NoneToTake(frames: seq<bytes>, stream: bytes)
    requires !StartsWithFrame(stream)
    ensures Batch(stream) == Extracted([], stream, |stream| >= 2 && ReadU16BE(stream, 0) == 0)
    ensures frames + Batch(stream).frames == frames
  {
  }

  lemma SentForOneMore(frames: seq<bytes>, payload: bytes, d: Option<Datagram>)
    requires d == ParseDatagram(payload)
    ensures SentFor(frames + [payload]) == if d.Some? then SentFor(frames) + [d.value] else SentFor(frames)
  {
    assert (frames + [payload])[..|frames|] == frames;
  }

  // ---------- The server ----------

  class UdpAssociation {
    var buffer: bytes
    var destroyed: bool
    /** What was handed to the UDP socket; whether it can be sent from there is not part of this model. */
    var sent: seq<Datagram>
    /** Every frame extracted so far. */
    ghost var frames: seq<bytes>

    ghost predicate Valid()
      reads this
    {
      sent == SentFor(frames)
    }

    ghost function State(): Extracted
      reads this
    {
      Extracted(frames, buffer, destroyed)
    }

    constructor ()
      ensures Valid() && State() == FeedAll([])
    {
      buffer, destroyed, sent, frames := [], false, [], [];
    }

    method OnData(chunk: bytes)
      requires Valid() && !destroyed
      modifies this
      ensures Valid() && State() == Feed(old(State()), chunk)
    {
      buffer := buffer + chunk;
      ghost var whole := Batch(buffer);
      while |buffer| >= 2
        invariant Valid() && !destroyed
        invariant old(frames) + whole.frames == frames + Batch(buffer).frames
        invariant Batch(buffer).tail == whole.tail && Batch(buffer).invalid == whole.invalid
        decreases |buffer|
      {
        var frameLen := ReadU16BE(buffer, 0);
        if frameLen == 0 || frameLen > 65535 {
          NoneToTake(frames, buffer);
          destroyed := true;
          return;
        }
        if |buffer| < 2 + frameLen {
          break;
        }
        TakeFirst(frames, buffer, frameLen);
        var payload := buffer[2..2 + frameLen];
        buffer := buffer[2 + frameLen..];
        HandlePayload(payload);
      }
      NoneToTake(frames, buffer);
    }

    /** One extracted frame: its datagram is handed to the socket, unless the header parse moves on. */
    method HandlePayload(payload: bytes)
      requires Valid()
      modifies `sent, `frames
      ensures Valid() && frames == old(frames) + [payload]
    {
      var datagram := ParseDatagram(payload);
      SentForOneMore(frames, payload, datagram);
      frames := frames + [payload];
      if datagram.Some? {
        sent := sent + [datagram.value];
      }
    }
  }
}

module UdpFramingTheorems {
  import opened Bytes
  import opened UdpFraming

  // ---------- Chunks ----------

  lemma FirstFrameStays(a: bytes, b: bytes)
    requires StartsWithFrame(a)
    ensures StartsWithFrame(a + b) && FirstFrame(a + b) == FirstFrame(a) && Behind(a + b) == Behind(a) + b
  {
  }

  lemma SplitsOff(stream: bytes)
    requires StartsWithFrame(stream)
    ensures stream == U16BE(|FirstFrame(stream)|) + FirstFrame(stream) + Behind(stream)
  {
    var n := ReadU16BE(stream, 0);
    assert U16BE(n) == stream[..2] && |FirstFrame(stream)| == n;
    assert stream == stream[..2] + stream[2..2 + n] + stream[2 + n..];
  }

  /** More bytes never change the frames already complete. */
  lemma {:induction false} BatchAppend(a: bytes, b: bytes)
    ensures Batch(a).invalid ==> Batch(a + b).invalid && Batch(a + b).frames == Batch(a).frames
    ensures !Batch(a).invalid ==>
              var more := Batch(Batch(a).tail + b);
              Batch(a + b) == more.(frames := Batch(a).frames + more.frames)
    decreases |a|
  {
    if StartsWithFrame(a) {
      FirstFrameStays(a, b);
      BatchAppend(Behind(a), b);
      Associate([FirstFrame(a)], Batch(Behind(a)).frames, Batch(Batch(Behind(a)).tail + b).frames);
    } else {
      Associate([], [], Batch(a + b).frames);
    }
  }

  lemma Associate(a: seq<bytes>, b: seq<bytes>, c: seq<bytes>)
    ensures (a + b) + c == a + (b + c) && [] + c == c
  {
  }

  /** However the stream is cut: the same frames come out, and the buffer holds what is left of the stream. */
  lemma {:induction false} ChunksDoNotMatter(chunks: seq<bytes>)
    ensures FeedAll(chunks).frames == Batch(Concat(chunks)).frames
    ensures FeedAll(chunks).invalid == Batch(Concat(chunks)).invalid
    ensures !FeedAll(chunks).invalid ==> FeedAll(chunks).tail == Batch(Concat(chunks)).tail
    decreases |chunks|
  {
    if chunks != [] {
      ChunksDoNotMatter(chunks[..|chunks| - 1]);
      BatchAppend(Concat(chunks[..|chunks| - 1]), chunks[|chunks| - 1]);
    }
  }

  // ---------- The writers ----------

  predicate AllFit(payloads: seq<bytes>) {
    forall i :: 0 <= i < |payloads| ==> |payloads[i]| <= 0xFFFF
  }

  function WriteAll(payloads: seq<bytes>): bytes
    requires AllFit(payloads)
  {
    if payloads == [] then [] else WriteUdpFrame(payloads[0]).value + WriteAll(payloads[1..])
  }

  lemma WrittenFirst(payload: bytes, rest: bytes)
    requires |payload| <= 0xFFFF
    ensures var stream := U16BE(|payload|) + payload + rest;
            && |stream| >= 2 && ReadU16BE(stream, 0) == |payload|
            && (payload != [] ==> StartsWithFrame(stream) && FirstFrame(stream) == payload && Behind(stream) == rest)
  {
    U16RoundTrip(|payload|, payload + rest);
    Associates(U16BE(|payload|), payload, rest);
    SplitsBack(U16BE(|payload|) + payload, rest);
  }

  lemma WriteAllFirst(first: bytes, rest: seq<bytes>)
    requires |first| <= 0xFFFF && AllFit(rest)
    ensures AllFit([first] + rest) && WriteAll([first] + rest) == U16BE(|first|) + first + WriteAll(rest)
  {
    assert ([first] + rest)[1..] == rest;
  }

  /** Every byte of the stream is in a frame or in the tail. */
  lemma {:induction false} NothingIsDropped(stream: bytes)
    ensures AllFit(Batch(stream).frames)
    ensures stream == WriteAll(Batch(stream).frames) + Batch(stream).tail
    decreases |stream|
  {
    if StartsWithFrame(stream) {
      var first, rest := FirstFrame(stream), Batch(Behind(stream));
      NothingIsDropped(Behind(stream));
      WriteAllFirst(first, rest.frames);
      SplitsOff(stream);
      Associates(U16BE(|first|) + first, WriteAll(rest.frames), rest.tail);
    }
  }

  lemma {:induction false} WrittenFramesAreRead(payloads: seq<bytes>)
    requires AllFit(payloads) && forall i :: 0 <= i < |payloads| ==> payloads[i] != []
    ensures Batch(WriteAll(payloads)) == Extracted(payloads, [], false)
    decreases |payloads|
  {
    if payloads != [] {
      WrittenFirst(payloads[0], WriteAll(payloads[1..]));
      WrittenFramesAreRead(payloads[1..]);
      assert payloads == [payloads[0]] + payloads[1..];
    }
  }

  lemma {:induction false} FramesAreNotEmpty(stream: bytes)
    ensures forall i :: 0 <= i < |Batch(stream).frames| ==> Batch(stream).frames[i] != []
    decreases |stream|
  {
    if StartsWithFrame(stream) {
      FramesAreNotEmpty(Behind(stream));
    }
  }

  /** Reading inverts writing exactly for lists without an empty payload. */
  lemma FramesRoundTripIff(payloads: seq<bytes>)
    requires AllFit(payloads)
    ensures Batch(WriteAll(payloads)) == Extracted(payloads, [], false) <==>
            forall i :: 0 <= i < |payloads| ==> payloads[i] != []
  {
    if forall i :: 0 <= i < |payloads| ==> payloads[i] != [] {
      WrittenFramesAreRead(payloads);
    } else {
      FramesAreNotEmpty(WriteAll(payloads));
    }
  }

  /** An empty payload anywhere ends the association there: what follows it is never extracted. */
  lemma {:induction false} EmptyPayloadEndsIt(before: seq<bytes>, after: seq<bytes>)
    requires AllFit(before) && AllFit(after) && forall i :: 0 <= i < |before| ==> before[i] != []
    ensures Batch(WriteAll(before + [[]] + after)).frames == before && Batch(WriteAll(before + [[]] + after)).invalid
    decreases |before|
  {
    var all := before + [[]] + after;
    WrittenFirst(all[0], WriteAll(all[1..]));
    if before == [] {
      assert all[0] == [];
    } else {
      assert all[1..] == before[1..] + [[]] + after;
      EmptyPayloadEndsIt(before[1..], after);
      assert before == [before[0]] + before[1..];
    }
  }

  /** The client's read loop: it takes the same frames off the same stream as the server's buffer loop. */
  method TcpToUdp(stream: bytes) returns (frames: seq<bytes>, rest: bytes, invalid: bool)
    ensures Extracted(frames, rest, invalid) == Batch(stream)
  {
    frames, rest := [], stream;
    while true
      invariant Batch(stream) == Batch(rest).(frames := frames + Batch(rest).frames)
      decreases |rest|
    {
      var reading := ReadUdpFrame(rest);
      match reading {
        case Frame(data, behind) =>
          Regroup(frames, data, Batch(behind).frames);
          frames, rest := frames + [data], behind;
        case Incomplete => return frames, rest, false;
        case InvalidLength => return frames, rest, true;
      }
    }
  }

  // ---------- Datagrams ----------

  /** What the server passes on: some data, and not fewer than ten bytes with the header. */
  predicate Deliverable(d: Datagram) {
    d.data != [] && |EncodeDatagram(d)| >= MIN_PAYLOAD
  }

  lemma SentAt(head: bytes, port: nat, data: bytes, host: Host)
    requires port < 0x1_0000
    ensures var payload := head + U16BE(port) + data;
            Sent(host, payload, |head|) == if data == [] then None else Some(Datagram(host, port, data))
  {
    var payload := head + U16BE(port) + data;
    Associates(head, U16BE(port), data);
    SplitsBack(head + U16BE(port), data);
    assert payload[|head| + 2..] == data;
    assert ReadU16BE(payload, |head|) == ReadU16BE(U16BE(port), 0);
  }

  /** What stands in the head of a payload is read there. */
  lemma InHead(head: bytes, rest: bytes, from: nat, to: nat)
    requires from <= to <= |head|
    ensures (head + rest)[from..to] == head[from..to]
    ensures forall i :: 0 <= i < |head| ==> (head + rest)[i] == head[i]
  {
  }

  function HeadOf(h: Host): bytes {
    [0, 0, 0] + EncodeHost(h)
  }

  lemma AddressIsRead(kind: byte, octets: bytes, rest: bytes)
    requires |octets| > 0
    ensures var payload := [0, 0, 0] + ([kind] + octets) + rest;
            && |payload| == 4 + |octets| + |rest| && payload[0] == payload[1] == payload[2] == 0
            && payload[3] == kind && payload[4..4 + |octets|] == octets
  {
    var head := [0, 0, 0] + ([kind] + octets);
    InHead(head, rest, 4, |head|);
    assert head[4..] == octets;
  }

  lemma NameIsRead(text: bytes, rest: bytes)
    requires |text| < 256
    ensures var payload := [0, 0, 0] + ([3, LowByte(|text|)] + text) + rest;
            && |payload| == 5 + |text| + |rest| && payload[0] == payload[1] == payload[2] == 0
            && payload[3] == 3 && payload[4] as nat == |text| && payload[5..5 + |text|] == text
  {
    var head := [0, 0, 0] + ([3, LowByte(|text|)] + text);
    InHead(head, rest, 5, |head|);
    assert head[5..] == text && head[4] == LowByte(|text|);
  }

  lemma HeadIsRead(h: Host, rest: bytes)
    requires WellFormed(Datagram(h, 0, []))
    ensures var head, payload := HeadOf(h), HeadOf(h) + rest;
            && |head| >= 5 && payload[0] == payload[1] == payload[2] == 0
            && (h.V4? ==> payload[3] == 1 && |head| == 8 && payload[4..8] == h.octets)
            && (h.Name? ==> payload[3] == 3 && |head| == 5 + |h.text| && payload[4] as nat == |h.text|
                            && payload[5..5 + |h.text|] == h.text)
            && (h.V6? ==> payload[3] == 4 && |head| == 20 && payload[4..20] == h.octets)
  {
    match h {
      case V4(octets) => AddressIsRead(1, octets, rest);
      case Name(text) => NameIsRead(text, rest);
      case V6(octets) => AddressIsRead(4, octets, rest);
    }
  }

  lemma HostIsRead(d: Datagram)
    requires WellFormed(d)
    ensures var payload := EncodeDatagram(d);
            var head := [0, 0, 0] + EncodeHost(d.host);
            && payload == head + U16BE(d.port) + d.data
            && |payload| == |head| + 2 + |d.data|
            && payload[0] == payload[1] == payload[2] == 0
            && (d.host.V4? ==> payload[3] == 1 && payload[4..8] == d.host.octets && |head| == 8)
            && (d.host.Name? ==> payload[3] == 3 && payload[4] as nat == |d.host.text|
                                 && payload[5..5 + |d.host.text|] == d.host.text && |head| == 5 + |d.host.text|)
            && (d.host.V6? ==> payload[3] == 4 && payload[4..20] == d.host.octets && |head| == 20)
  {
    HeadIsRead(d.host, U16BE(d.port) + d.data);
    Associates(HeadOf(d.host), U16BE(d.port), d.data);
  }

  /** The server reads back a datagram of any address type exactly when it is deliverable, and ignores it otherwise. */
  lemma DatagramRoundTrip(d: Datagram)
    requires WellFormed(d)
    ensures ParseDatagram(EncodeDatagram(d)) == if Deliverable(d) then Some(d) else None
  {
    HostIsRead(d);
    SentAt([0, 0, 0] + EncodeHost(d.host), d.port, d.data, d.host);
  }

  lemma SentIff(host: Host, payload: bytes, offset: nat, d: Datagram)
    requires offset + 2 <= |payload|
    ensures Sent(host, payload, offset) == Some(d) <==>
            && d.host == host && d.data != [] && d.port < 0x1_0000
            && payload == payload[..offset] + U16BE(d.port) + d.data
  {
    var port, data := ReadU16BE(payload, offset), payload[offset + 2..];
    var head := payload[..offset];
    assert U16BE(port) == payload[offset..offset + 2];
    assert payload == head + U16BE(port) + data;
    if payload == head + U16BE(d.port) + d.data && d.port < 0x1_0000 {
      var tail := U16BE(d.port) + d.data;
      assert payload == head + tail;
      assert payload[offset] == tail[0] && payload[offset + 1] == tail[1];
      assert payload[offset + 2..] == tail[2..];
    }
  }

  /** `head` stands at the front of `payload`, which is long enough. */
  lemma HeadStands(payload: bytes, head: bytes)
    requires |head| <= |payload| && payload[..|head|] == head
    ensures forall i :: 0 <= i < |head| ==> payload[i] == head[i]
  {
    assert forall i :: 0 <= i < |head| ==> payload[..|head|][i] == head[i];
  }

  /** The payload starts with three zero bytes and an address that is whole, with a port behind it. */
  predicate HasHead(payload: bytes) {
    && |payload| >= MIN_PAYLOAD && payload[0] == payload[1] == payload[2] == 0
    && (payload[3] == 1
        || (payload[3] == 3 && |payload| >= 7 + payload[4] as nat) || (payload[3] == 4 && |payload| >= 22))
  }

  function HostIn(payload: bytes): Host
    requires HasHead(payload)
  {
    if payload[3] == 1 then V4(payload[4..8])
    else if payload[3] == 3 then Name(payload[5..5 + payload[4] as nat])
    else V6(payload[4..20])
  }

  lemma ParseByHead(payload: bytes)
    ensures HasHead(payload) ==>
              && |HeadOf(HostIn(payload))| + 2 <= |payload| && WellFormed(Datagram(HostIn(payload), 0, []))
              && ParseDatagram(payload) == Sent(HostIn(payload), payload, |HeadOf(HostIn(payload))|)
    ensures !HasHead(payload) ==> ParseDatagram(payload) == None
  {
  }

  /** The head of a payload is the encoding of the host in it, and of no other. */
  lemma HeadOfHostIn(payload: bytes)
    requires HasHead(payload)
    ensures |HeadOf(HostIn(payload))| <= |payload|
    ensures payload[..|HeadOf(HostIn(payload))|] == HeadOf(HostIn(payload))
  {
  }

  lemma EncodedHasHead(d: Datagram, payload: bytes)
    requires WellFormed(d) && Deliverable(d) && payload == EncodeDatagram(d)
    ensures HasHead(payload) && HostIn(payload) == d.host
  {
    HostIsRead(d);
  }

  /**
   For every byte string: the server hands a datagram to its socket if and only if the string is the encoding of that
   datagram, which has data and ten bytes. Anything else, fragments included, is skipped.
   */
  lemma ParseDatagramIff(payload: bytes, d: Datagram)
    ensures ParseDatagram(payload) == Some(d) <==> WellFormed(d) && Deliverable(d) && EncodeDatagram(d) == payload
  {
    ParseByHead(payload);
    if HasHead(payload) {
      var head := HeadOf(HostIn(payload));
      SentIff(HostIn(payload), payload, |head|, d);
      HeadOfHostIn(payload);
    }
    if WellFormed(d) && Deliverable(d) && EncodeDatagram(d) == payload {
      DatagramRoundTrip(d);
    }
  }

  /** Every fragment, reserved bytes that are not zero and every unknown address type are skipped. */
  lemma FragmentsAreSkipped(payload: bytes)
    requires |payload| >= 4
    requires payload[0] != 0 || payload[1] != 0 || payload[2] != 0 || payload[3] !in {1, 3, 4}
    ensures ParseDatagram(payload) == None
  {
    if d :| ParseDatagram(payload) == Some(d) {
      ParseDatagramIff(payload, d);
      HostIsRead(d);
    }
  }

  /** DNS query bytes to port 53 of 127.0.0.1, and of the name "a.b", as section 7 of RFC 1928 lays them out. */
  lemma KnownDatagrams()
    ensures EncodeDatagram(Datagram(V4([127, 0, 0, 1]), 53, [9])) == [0, 0, 0, 1, 127, 0, 0, 1, 0, 53, 9]
    ensures EncodeDatagram(Datagram(Name([97, 46, 98]), 0x1234, [9])) ==
            [0, 0, 0, 3, 3, 97, 46, 98, 0x12, 0x34, 9]
    ensures |EncodeDatagram(Datagram(V6(seq(16, i => 0)), 53, [9]))| == 23
    ensures EncodeDatagram(Datagram(V6(seq(16, i => 0)), 53, [9]))[3] == 4
    ensures ParseDatagram(EncodeDatagram(Datagram(Name([97, 98]), 53, [1]))) == Some(Datagram(Name([97, 98]), 53, [1]))
    ensures WriteUdpFrame([7, 8, 9]) == Ok([0, 3, 7, 8, 9])
  {
    DatagramRoundTrip(Datagram(Name([97, 98]), 53, [1]));
    assert U16BE(3) + [7, 8, 9] == [0, 3, 7, 8, 9];
  }

  /** A short name with little data is dropped although it is a valid request of RFC 1928. */
  lemma ShortNameIsDropped()
    ensures var d := Datagram(Name([97]), 53, [1]);
            WellFormed(d) && d.data != [] && ParseDatagram(EncodeDatagram(d)) == None
  {
    DatagramRoundTrip(Datagram(Name([97]), 53, [1]));
  }

  // ---------- Both together ----------

  function Encoded(ds: seq<Datagram>): seq<bytes> {
    if ds == [] then [] else Encoded(ds[..|ds| - 1]) + [EncodeDatagram(ds[|ds| - 1])]
  }

  function Delivered(ds: seq<Datagram>): seq<Datagram> {
    if ds == [] then []
    else
      var before := Delivered(ds[..|ds| - 1]);
      if Deliverable(ds[|ds| - 1]) then before + [ds[|ds| - 1]] else before
  }

  lemma SentForNext(frames: seq<bytes>, d: Datagram)
    requires WellFormed(d)
    ensures SentFor(frames + [EncodeDatagram(d)]) == if Deliverable(d) then SentFor(frames) + [d] else SentFor(frames)
  {
    DatagramRoundTrip(d);
    assert (frames + [EncodeDatagram(d)])[..|frames|] == frames;
  }

  lemma {:induction false} SentForEncoded(ds: seq<Datagram>)
    requires forall i :: 0 <= i < |ds| ==> WellFormed(ds[i])
    ensures SentFor(Encoded(ds)) == Delivered(ds)
    decreases |ds|
  {
    if ds != [] {
      var rest, last := ds[..|ds| - 1], ds[|ds| - 1];
      SentForEncoded(rest);
      SentForNext(Encoded(rest), last);
      assert Encoded(ds) == Encoded(rest) + [EncodeDatagram(last)];
    }
  }

  /** Payload `i` is the encoding of datagram `i`. */
  ghost predicate Encodes(payloads: seq<bytes>, ds: seq<Datagram>) {
    |payloads| == |ds| && forall i :: 0 <= i < |ds| ==> payloads[i] == EncodeDatagram(ds[i])
  }

  lemma EncodesNext(payloads: seq<bytes>, ds: seq<Datagram>, d: Datagram, payload: bytes)
    requires Encodes(payloads, ds) && payload == EncodeDatagram(d)
    ensures Encodes(payloads + [payload], ds + [d])
  {
  }

  lemma {:induction false} EncodedFacts(ds: seq<Datagram>)
    ensures Encodes(Encoded(ds), ds)
    decreases |ds|
  {
    if ds != [] {
      var rest, last := ds[..|ds| - 1], ds[|ds| - 1];
      EncodedFacts(rest);
      EncodesNext(Encoded(rest), rest, last, EncodeDatagram(last));
      assert ds == rest + [last];
    }
  }

  /** The frames of well-formed datagrams can be written when none is too long. */
  predicate AllWritable(ds: seq<Datagram>) {
    forall i :: 0 <= i < |ds| ==> WellFormed(ds[i]) && |EncodeDatagram(ds[i])| <= 0xFFFF
  }

  lemma EncodedCanBeRead(ds: seq<Datagram>)
    requires AllWritable(ds)
    ensures AllFit(Encoded(ds)) && forall i :: 0 <= i < |ds| ==> |Encoded(ds)| == |ds| && Encoded(ds)[i] != []
  {
    EncodedFacts(ds);
    forall i | 0 <= i < |ds|
      ensures Encoded(ds)[i] != []
    {
      HostIsRead(ds[i]);
    }
  }

  /**
   From the local socket to the remote one: however the stream of framed datagrams is cut into chunks, the server
   hands exactly the deliverable ones to its socket, in order, and keeps nothing back.
   */
  lemma DatagramsArrive(ds: seq<Datagram>, chunks: seq<bytes>)
    requires AllWritable(ds) && AllFit(Encoded(ds)) && Concat(chunks) == WriteAll(Encoded(ds))
    ensures SentFor(FeedAll(chunks).frames) == Delivered(ds)
    ensures FeedAll(chunks).tail == [] && !FeedAll(chunks).invalid
  {
    ChunksDoNotMatter(chunks);
    EncodedFacts(ds);
    EncodedCanBeRead(ds);
    FramesRoundTripIff(Encoded(ds));
    SentForEncoded(ds);
  }
}

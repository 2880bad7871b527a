/**
  Packet framing: the three frame layouts, the encoder that prepends their headers in place, and
  the decoder that undoes it.
 */
module Framing {
  import opened Bytes
  import VarInts

  const MAX_PACKET_SIZE: nat := 2_097_152
  const MAX_PACKET_DATA_SIZE: nat := 8_388_608

  datatype PacketError =
    | ReadFailed | OutOfBounds | PacketTooLong(len: nat) | DecompressionFailed | NotCompressed

  datatype Result<+T> = Ok(value: T) | Err(error: PacketError)

  /** Threshold and level; the threshold is a `NonZeroU32`. */
  datatype Compression = Compression(threshold: nat, level: int)
  {
    predicate Valid()
    {
      1 <= threshold < VarInts.TWO_32
    }
  }

  predicate ValidCompression(c: Option<Compression>)
  {
    c.Some? ==> c.value.Valid()
  }

  /** Zlib (RFC 1950): `inflate` gives the whole output of a stream that ends cleanly. */
  datatype Zlib = Zlib(deflate: (seq<byte>, int) -> seq<byte>, inflate: seq<byte> -> Option<seq<byte>>)
  {
    ghost predicate Inverse()
    {
      forall data: seq<byte>, level: int :: inflate(deflate(data, level)) == Some(data)
    }

    /** Incompressible input grows, but by far less than its own size again. */
    ghost predicate ExpandsLittle()
    {
      forall data: seq<byte>, level: int :: |deflate(data, level)| <= 2 * |data| + 1024
    }
  }

  /** A received packet: the buffer that was read and where the payload starts in it. */
  datatype RawPacket = RawPacket(id: int, buffer: seq<byte>, payloadStart: nat)
  {
    predicate Valid()
    {
      VarInts.IsI32(id) && payloadStart <= |buffer| <= MAX_PACKET_DATA_SIZE
    }

    function Payload(): (p: seq<byte>)
      requires Valid()
    {
      buffer[payloadStart..]
    }
  }

  // ----- The buffer with room in front -----

  class FrontVec {
    var buf: seq<byte>
    var frontSpace: nat

    ghost predicate Valid()
      reads this
    {
      frontSpace <= |buf|
    }

    function Contents(): (s: seq<byte>)
      requires Valid()
      reads this
    {
      buf[frontSpace..]
    }

    constructor (reserve: nat)
      ensures Valid() && Contents() == [] && frontSpace == reserve
    {
      buf := seq(reserve, _ => 0);
      frontSpace := reserve;
    }

    method ExtendFromSlice(other: seq<byte>)
      requires Valid()
      modifies this
      ensures Valid() && Contents() == old(Contents()) + other && frontSpace == old(frontSpace)
    {
      buf := buf + other;
    }

    /** Panics when the reserved space is too small, hence the precondition. */
    method SetInFront(other: seq<byte>)
      requires Valid() && |other| <= frontSpace
      modifies this
      ensures Valid() && Contents() == other + old(Contents()) && frontSpace == old(frontSpace) - |other|
    {
      var newStart := frontSpace - |other|;
      buf := buf[..newStart] + other + buf[frontSpace..];
      frontSpace := newStart;
    }
  }

  // ----- Encoding -----

  /** `[length][id and payload]`. */
  function EncodePlain(data: seq<byte>): (r: Result<seq<byte>>)
  {
    var len := VarInts.AsI32(|data|);
    var completeLen := VarInts.WrittenSize(len) + |data|;
    if completeLen > MAX_PACKET_SIZE then Err(PacketTooLong(completeLen)) else Ok(VarInts.Write(len) + data)
  }

  /** `[length][data length][deflated]`, or `[length][0][id and payload]` below the threshold. */
  function EncodeCompressed(z: Zlib, data: seq<byte>, c: Compression): (r: Result<seq<byte>>)
  {
    if |data| + 2 * VarInts.MAX_SIZE > MAX_PACKET_DATA_SIZE then Err(PacketTooLong(|data|))
    else
      var body := if |data| >= c.threshold
                  then VarInts.Write(VarInts.AsI32(|data|)) + z.deflate(data, c.level)
                  else VarInts.Write(0) + data;
      Ok(VarInts.Write(VarInts.AsI32(|body|)) + body)
  }

  function Encode(z: Zlib, data: seq<byte>, c: Option<Compression>): (r: Result<seq<byte>>)
  {
    if c.Some? then EncodeCompressed(z, data, c.value) else EncodePlain(data)
  }

  /** The packet id followed by the payload: what a packet writes of itself. */
  function PacketData(id: int, payload: seq<byte>): (data: seq<byte>)
    requires VarInts.IsI32(id)
    ensures data != []
  {
    VarInts.Write(id) + payload
  }

  method SetVarIntInFront(v: int, size: nat, vec: FrontVec)
    requires VarInts.IsI32(v) && size == VarInts.WrittenSize(v)
    requires vec.Valid() && size <= vec.frontSpace
    modifies vec
    ensures vec.Valid() && vec.Contents() == VarInts.Write(v) + old(vec.Contents())
    ensures vec.frontSpace == old(vec.frontSpace) - size
  {
    var written := VarInts.WriteTo(v, []);
    VarInts.WrittenSizeIsLength(v);
    vec.SetInFront(written[..size]);
  }

  /** Plain layout, headers set in place. */
  method FromDataUncompressed(packetData: FrontVec) returns (r: Result<seq<byte>>)
    requires packetData.Valid() && packetData.frontSpace == 6
    modifies packetData
    ensures r == EncodePlain(old(packetData.Contents()))
  {
    hide VarInts.WriteU32, VarInts.BitLength;
    var dataLen := |packetData.Contents()|;
    var size := VarInts.WrittenSize(VarInts.AsI32(dataLen));
    var completeLen := size + dataLen;
    if completeLen > MAX_PACKET_SIZE {
      return Err(PacketTooLong(completeLen));
    }
    VarInts.SmallSizes(dataLen);
    SetVarIntInFront(VarInts.AsI32(dataLen), size, packetData);
    return Ok(packetData.Contents());
  }

  /** Both compressed layouts, headers set in place. */
  method FromPacketData(z: Zlib, packetData: FrontVec, c: Compression) returns (r: Result<seq<byte>>)
    requires packetData.Valid() && packetData.frontSpace == 6
    modifies packetData
    ensures r == EncodeCompressed(z, old(packetData.Contents()), c)
  {
    hide VarInts.WriteU32, VarInts.BitLength;
    var dataLen := |packetData.Contents()|;
    if dataLen + VarInts.MAX_SIZE * 2 > MAX_PACKET_DATA_SIZE {
      return Err(PacketTooLong(dataLen));
    }
    if dataLen >= c.threshold {
      var buf := new FrontVec(10);
      buf.ExtendFromSlice(z.deflate(packetData.Contents(), c.level));
      assert buf.Contents() == z.deflate(packetData.Contents(), c.level);
      var size := VarInts.WrittenSize(VarInts.AsI32(dataLen));
      var fullLen := size + |buf.Contents()|;
      var fullSize := VarInts.WrittenSize(VarInts.AsI32(fullLen));
      VarInts.SmallSizes(dataLen);
      VarInts.WrittenSizeIsLength(VarInts.AsI32(fullLen));
      SetVarIntInFront(VarInts.AsI32(dataLen), size, buf);
      assert |buf.Contents()| == fullLen;
      SetVarIntInFront(VarInts.AsI32(fullLen), fullSize, buf);
      return Ok(buf.Contents());
    } else {
      var withHeader := dataLen + 1;
      var size := VarInts.WrittenSize(VarInts.AsI32(withHeader));
      VarInts.SmallSizes(withHeader);
      VarInts.SmallSizes(0);
      SetVarIntInFront(0, 1, packetData);
      SetVarIntInFront(VarInts.AsI32(withHeader), size, packetData);
      return Ok(packetData.Contents());
    }
  }

  /** The whole encoder. No header ever runs out of the 6 or 10 bytes reserved for it. */
  method EncodePacket(z: Zlib, id: int, payload: seq<byte>, c: Option<Compression>)
    returns (r: Result<seq<byte>>)
    requires VarInts.IsI32(id)
    ensures r == Encode(z, PacketData(id, payload), c)
  {
    hide EncodePlain, EncodeCompressed, VarInts.WriteU32;
    var packetData := new FrontVec(6);
    var idBytes := VarInts.WriteTo(id, []);
    packetData.ExtendFromSlice(idBytes);
    packetData.ExtendFromSlice(payload);
    assert packetData.Contents() == PacketData(id, payload);
    if c.Some? {
      r := FromPacketData(z, packetData, c.value);
    } else {
      r := FromDataUncompressed(packetData);
    }
  }

  // ----- Decoding -----

  /** The id and payload that `buffer` holds from `start` on. */
  function ParseId(buffer: seq<byte>, start: nat): (r: Result<RawPacket>)
    requires start <= |buffer| <= MAX_PACKET_DATA_SIZE
    ensures r.Ok? ==> r.value.Valid() && start < r.value.payloadStart
  {
    match VarInts.Read(buffer[start..])
    case Value(id, used) => Ok(RawPacket(id, buffer, start + used))
    case _ => Err(ReadFailed)
  }

  /** The size that the threshold test works with; it never goes below zero. */
  function RawPacketLen(body: seq<byte>): (n: nat)
    requires VarInts.Read(body).Value?
  {
    VarInts.ReadUsesAtLeastWrittenSize(body);
    |body| - VarInts.WrittenSize(VarInts.Read(body).v)
  }

  function ParseBody(z: Zlib, body: seq<byte>, threshold: Option<nat>): (r: Result<RawPacket>)
    requires |body| <= MAX_PACKET_SIZE
    ensures r.Ok? ==> r.value.Valid()
  {
    if threshold.None? then ParseId(body, 0)
    else
      var reading := VarInts.Read(body);
      if !reading.Value? then Err(ReadFailed)
      else
        var rawPacketLen := RawPacketLen(body);
        var decompressedLen := VarInts.AsUsize(reading.v);
        if decompressedLen > MAX_PACKET_DATA_SIZE then Err(PacketTooLong(decompressedLen))
        else if decompressedLen > 0 then
          var out := z.inflate(body[reading.used..]);
          if out.Some? && |out.value| == decompressedLen then ParseId(out.value, 0) else Err(DecompressionFailed)
        else if rawPacketLen > threshold.value then Err(NotCompressed)
        else ParseId(body, reading.used)
  }

  /** One packet off the front of the input, and the input that is left. */
  function Decode(z: Zlib, input: seq<byte>, threshold: Option<nat>): (r: (Result<RawPacket>, seq<byte>))
    ensures r.0.Ok? ==> r.0.value.Valid() && |r.1| < |input|
  {
    match VarInts.Read(input)
    case Truncated => (Err(ReadFailed), [])
    case TooLong => (Err(ReadFailed), if |input| < 5 then [] else input[5..])
    case Value(v, used) =>
      var len := VarInts.AsUsize(v);
      var rest := input[used..];
      if len > MAX_PACKET_SIZE then (Err(OutOfBounds), rest)
      else if |rest| < len then (Err(ReadFailed), [])
      else (ParseBody(z, rest[..len], threshold), rest[len..])
  }

  class NetworkDecoder {
    const z: Zlib
    var input: seq<byte>
    var compression: Option<nat>

    constructor (z: Zlib, input: seq<byte>)
      ensures this.z == z && this.input == input && compression == None
    {
      this.z := z;
      this.input := input;
      compression := None;
    }

    method SetCompression(threshold: nat)
      modifies this`compression
      ensures compression == Some(threshold)
    {
      compression := Some(threshold);
    }

    /**
      The reading loop of a connection: `k` packets, with compression switched on after the first
      `plain` of them.
     */
    method ReadPackets(plain: nat, threshold: nat, k: nat) returns (r: Option<seq<Packet>>)
      requires compression.None?
      modifies this
      ensures var all := DecodeMany(z, old(input), plain, Some(threshold), k);
              && (r.Some? <==> all.Some?)
              && (r.Some? ==> all == Some((r.value, input)))
              && (r.Some? ==> compression == if k <= plain then None else Some(threshold))
    {
      hide Decode;
      var packets: seq<Packet> := [];
      BehindNothing(DecodeMany(z, input, plain, Some(threshold), k));
      for i := 0 to k
        invariant compression == if i <= plain then None else Some(threshold)
        invariant DecodeMany(z, old(input), plain, Some(threshold), k)
               == Behind(packets, DecodeMany(z, input, Left(plain, i), Some(threshold), k - i))
      {
        if i == plain {
          SetCompression(threshold);
        }
        var raw := GetRawPacket();
        if raw.Err? {
          return None;
        }
        var p := Packet(raw.value.id, raw.value.Payload());
        BehindOne(packets, p, DecodeMany(z, input, Left(plain, i + 1), Some(threshold), k - (i + 1)));
        packets := packets + [p];
      }
      assert packets + [] == packets;
      return Some(packets);
    }

    method GetRawPacket() returns (r: Result<RawPacket>)
      modifies this`input
      ensures (r, input) == Decode(z, old(input), compression)
    {
      var reading := VarInts.ReadFrom(input);
      match reading {
        case Truncated =>
          input := [];
          return Err(ReadFailed);
        case TooLong =>
          input := if |input| < 5 then [] else input[5..];
          return Err(ReadFailed);
        case Value(v, used) =>
          input := input[used..];
          var packetLen := VarInts.AsUsize(v);
          if packetLen > MAX_PACKET_SIZE {
            return Err(OutOfBounds);
          }
          if |input| < packetLen {
            input := [];
            return Err(ReadFailed);
          }
          var packetData := input[..packetLen];
          input := input[packetLen..];
          r := ParsePacket(packetData);
      }
    }

    method ParsePacket(packetData: seq<byte>) returns (r: Result<RawPacket>)
      requires |packetData| <= MAX_PACKET_SIZE
      ensures r == ParseBody(z, packetData, compression)
    {
      var packetBuffer, start := packetData, 0;
      if compression.Some? {
        var reading := VarInts.ReadFrom(packetData);
        if !reading.Value? {
          return Err(ReadFailed);
        }
        VarInts.ReadUsesAtLeastWrittenSize(packetData);
        var rawPacketLen: nat := |packetData| - VarInts.WrittenSize(reading.v);
        var decompressedLen := VarInts.AsUsize(reading.v);
        if decompressedLen > MAX_PACKET_DATA_SIZE {
          return Err(PacketTooLong(decompressedLen));
        }
        if decompressedLen > 0 {
          var out := z.inflate(packetData[reading.used..]);
          if out.None? || |out.value| != decompressedLen {
            return Err(DecompressionFailed);
          }
          packetBuffer := out.value;
        } else {
          if rawPacketLen > compression.value {
            return Err(NotCompressed);
          }
          start := reading.used;
        }
      }
      var id := VarInts.ReadFrom(packetBuffer[start..]);
      if !id.Value? {
        return Err(ReadFailed);
      }
      return Ok(RawPacket(id.v, packetBuffer, start + id.used));
    }
  }

  // ----- One frame -----

  function Threshold(c: Option<Compression>): (t: Option<nat>)
  {
    if c.Some? then Some(c.value.threshold) else None
  }

  /** The number a frame's length field announces: a caller can compute it before sending. */
  function BodyLen(z: Zlib, data: seq<byte>, c: Option<Compression>): (n: nat)
  {
    if c.None? then |data|
    else if |data| >= c.value.threshold
      then VarInts.WrittenSize(VarInts.AsI32(|data|)) + |z.deflate(data, c.value.level)|
    else 1 + |data|
  }

  function Body(z: Zlib, data: seq<byte>, c: Option<Compression>): (body: seq<byte>)
  {
    if c.None? then data
    else if |data| >= c.value.threshold
      then VarInts.Write(VarInts.AsI32(|data|)) + z.deflate(data, c.value.level)
    else VarInts.Write(0) + data
  }

  lemma FrameShape(z: Zlib, data: seq<byte>, c: Option<Compression>)
    requires Encode(z, data, c).Ok?
    ensures |Body(z, data, c)| == BodyLen(z, data, c)
    ensures Encode(z, data, c).value == VarInts.Write(VarInts.AsI32(BodyLen(z, data, c))) + Body(z, data, c)
    ensures c.None? ==> BodyLen(z, data, c) <= MAX_PACKET_SIZE
    ensures c.Some? ==> |data| < MAX_PACKET_DATA_SIZE
    ensures z.ExpandsLittle() ==> BodyLen(z, data, c) < VarInts.TWO_31
  {
    VarInts.SmallSizes(0);
    VarInts.WrittenSizeIsLength(VarInts.AsI32(|data|));
    assert c.Some? && z.ExpandsLittle() ==> |z.deflate(data, c.value.level)| <= 2 * |data| + 1024;
  }

  lemma ParseIdOfPacketData(before: seq<byte>, id: int, payload: seq<byte>)
    requires VarInts.IsI32(id) && |before + PacketData(id, payload)| <= MAX_PACKET_DATA_SIZE
    ensures var r := ParseId(before + PacketData(id, payload), |before|);
            r.Ok? && r.value.id == id && r.value.Payload() == payload
  {
    var buffer := before + PacketData(id, payload);
    assert buffer[|before|..] == VarInts.Write(id) + payload;
    VarInts.ReadInvertsWrite(id, payload);
    assert buffer[|before| + |VarInts.Write(id)|..] == payload;
  }

  /** Parsing the body that the encoder built gives the packet back, in all three layouts. */
  lemma ParseInvertsBody(z: Zlib, id: int, payload: seq<byte>, c: Option<Compression>)
    requires z.Inverse() && ValidCompression(c) && VarInts.IsI32(id)
    requires Encode(z, PacketData(id, payload), c).Ok?
    requires BodyLen(z, PacketData(id, payload), c) <= MAX_PACKET_SIZE
    ensures |Body(z, PacketData(id, payload), c)| <= MAX_PACKET_SIZE
    ensures var r := ParseBody(z, Body(z, PacketData(id, payload), c), Threshold(c));
            r.Ok? && r.value.id == id && r.value.Payload() == payload
  {
    hide VarInts.WriteU32, VarInts.ReadGroups, VarInts.BitLength;
    var data := PacketData(id, payload);
    var body := Body(z, data, c);
    FrameShape(z, data, c);
    ParseIdOfPacketData([], id, payload);
    assert [] + data == data;
    if c.Some? && |data| >= c.value.threshold {
      var packed := z.deflate(data, c.value.level);
      VarInts.ReadInvertsWrite(|data|, packed);
      assert body[|VarInts.Write(|data|)|..] == packed;
    } else if c.Some? {
      VarInts.ReadInvertsWrite(0, data);
      VarInts.SmallSizes(0);
      assert RawPacketLen(body) == |data|;
      ParseIdOfPacketData(VarInts.Write(0), id, payload);
    }
  }

  /** What receiving one packet intact means: its id, its payload, and the input left after it. */
  ghost predicate Received(r: (Result<RawPacket>, seq<byte>), id: int, payload: seq<byte>, rest: seq<byte>)
  {
    r.0.Ok? && r.0.value.Valid() && r.0.value.id == id && r.0.value.Payload() == payload && r.1 == rest
  }

  /** A frame whose body is within the packet limit is received intact, whatever follows it. */
  lemma FrameIsReceived(z: Zlib, id: int, payload: seq<byte>, c: Option<Compression>, rest: seq<byte>)
    requires z.Inverse() && ValidCompression(c) && VarInts.IsI32(id)
    requires Encode(z, PacketData(id, payload), c).Ok?
    requires BodyLen(z, PacketData(id, payload), c) <= MAX_PACKET_SIZE
    ensures Received(Decode(z, Encode(z, PacketData(id, payload), c).value + rest, Threshold(c)), id, payload, rest)
  {
    hide VarInts.WriteU32, VarInts.ReadGroups, VarInts.BitLength, ParseBody, Encode;
    var data := PacketData(id, payload);
    FrameShape(z, data, c);
    DecodeFrame(z, Body(z, data, c), Threshold(c), rest);
    ParseInvertsBody(z, id, payload, c);
  }

  /** A length prefix within the limit hands its body to the parser. */
  lemma DecodeFrame(z: Zlib, body: seq<byte>, threshold: Option<nat>, rest: seq<byte>)
    requires |body| <= MAX_PACKET_SIZE
    ensures Decode(z, VarInts.Write(|body|) + body + rest, threshold) == (ParseBody(z, body, threshold), rest)
  {
    hide VarInts.WriteU32, VarInts.ReadGroups, VarInts.BitLength, ParseBody;
    var head := VarInts.Write(|body|);
    var input := head + body + rest;
    assert input == head + (body + rest);
    VarInts.ReadInvertsWrite(|body|, body + rest);
    assert input[|head|..] == body + rest;
    assert (body + rest)[..|body|] == body && (body + rest)[|body|..] == rest;
  }

  /**
    A frame that was encoded is received intact, whatever follows it, exactly when its body is
    within the packet limit. Without compression that is always so.
   */
  lemma FrameRoundTrip(z: Zlib, id: int, payload: seq<byte>, c: Option<Compression>, rest: seq<byte>)
    requires z.Inverse() && z.ExpandsLittle() && ValidCompression(c) && VarInts.IsI32(id)
    requires Encode(z, PacketData(id, payload), c).Ok?
    ensures var input := Encode(z, PacketData(id, payload), c).value + rest;
            Received(Decode(z, input, Threshold(c)), id, payload, rest)
            <==> BodyLen(z, PacketData(id, payload), c) <= MAX_PACKET_SIZE
    ensures c.None? ==> BodyLen(z, PacketData(id, payload), c) <= MAX_PACKET_SIZE
  {
    var data := PacketData(id, payload);
    FrameShape(z, data, c);
    if BodyLen(z, data, c) <= MAX_PACKET_SIZE {
      FrameIsReceived(z, id, payload, c, rest);
    } else {
      LongFrameIsRefused(z, data, c, rest);
    }
  }

  lemma LongFrameIsRefused(z: Zlib, data: seq<byte>, c: Option<Compression>, rest: seq<byte>)
    requires Encode(z, data, c).Ok? && MAX_PACKET_SIZE < BodyLen(z, data, c) < VarInts.TWO_31
    ensures Decode(z, Encode(z, data, c).value + rest, Threshold(c)).0 == Err(OutOfBounds)
  {
    hide VarInts.WriteU32, VarInts.ReadGroups, VarInts.BitLength, Encode;
    FrameShape(z, data, c);
    var n := BodyLen(z, data, c);
    var body := Body(z, data, c);
    assert VarInts.Write(n) + body + rest == VarInts.Write(n) + (body + rest);
    VarInts.ReadInvertsWrite(n, body + rest);
  }

  /**
    The limit is really missed: below a high threshold, any packet of three million bytes is
    encoded uncompressed and its frame refused by the decoder, whatever the compressor does.
   */
  lemma EncodedFrameCanBeRefused(z: Zlib, payload: seq<byte>, rest: seq<byte>)
    requires |payload| == 3_000_000
    ensures var c := Some(Compression(4_000_000, 4));
            var r := Encode(z, PacketData(0, payload), c);
            ValidCompression(c) && r.Ok? && Decode(z, r.value + rest, Threshold(c)).0 == Err(OutOfBounds)
  {
    VarInts.SmallSizes(0);
    LongFrameIsRefused(z, PacketData(0, payload), Some(Compression(4_000_000, 4)), rest);
  }

  /** The data-length field tells the two compressed layouts apart: it is zero only below the threshold. */
  lemma DataLengthIsUnambiguous(z: Zlib, data: seq<byte>, c: Compression)
    requires c.Valid() && Encode(z, data, Some(c)).Ok?
    ensures VarInts.Read(Body(z, data, Some(c))).Value?
    ensures VarInts.Read(Body(z, data, Some(c))).v == 0 <==> |data| < c.threshold
  {
    hide VarInts.WriteU32, VarInts.ReadGroups, VarInts.BitLength;
    if |data| >= c.threshold {
      VarInts.ReadInvertsWrite(|data|, z.deflate(data, c.level));
    } else {
      VarInts.ReadInvertsWrite(0, data);
    }
  }

  /** A frame that is cut off anywhere is never taken for a packet. */
  lemma CutFrameIsNotReceived(z: Zlib, data: seq<byte>, c: Option<Compression>, n: nat)
    requires Encode(z, data, c).Ok? && BodyLen(z, data, c) <= MAX_PACKET_SIZE
    requires n < |Encode(z, data, c).value|
    ensures Decode(z, Encode(z, data, c).value[..n], Threshold(c)) == (Err(ReadFailed), [])
  {
    hide VarInts.WriteU32, VarInts.ReadGroups, VarInts.BitLength, ParseBody;
    FrameShape(z, data, c);
    var len := BodyLen(z, data, c);
    var head := VarInts.Write(len);
    var frame := head + Body(z, data, c);
    var cut := frame[..n];
    VarInts.WrittenSizeIsLength(len);
    if n < |head| {
      assert cut == head[..n];
      VarInts.CutWriteIsTruncated(len, n, 0, 0);
    } else {
      var tail := cut[|head|..];
      assert cut == head + tail;
      VarInts.ReadInvertsWrite(len, tail);
    }
  }

  // ----- What is refused -----

  /** What the encoder accepts, and the size it complains about otherwise. */
  lemma EncoderRefusesExactly(z: Zlib, data: seq<byte>, c: Option<Compression>)
    ensures c.None? ==>
              var size := |data| + VarInts.WrittenSize(VarInts.AsI32(|data|));
              if size <= 2_097_152 then Encode(z, data, c).Ok? else Encode(z, data, c) == Err(PacketTooLong(size))
    ensures c.Some? ==>
              if |data| + 10 <= 8_388_608 then Encode(z, data, c).Ok?
              else Encode(z, data, c) == Err(PacketTooLong(|data|))
  {
  }

  /** The three layouts, byte for byte. */
  lemma LayoutsAreThese(z: Zlib, data: seq<byte>, c: Option<Compression>)
    requires Encode(z, data, c).Ok?
    ensures var frame := Encode(z, data, c).value;
            match c
            case None => frame == VarInts.Write(|data|) + data
            case Some(x) =>
              if |data| < x.threshold then frame == VarInts.Write(|data| + 1) + ([0] + data)
              else
                var packed := VarInts.Write(|data|) + z.deflate(data, x.level);
                frame == VarInts.Write(VarInts.AsI32(|packed|)) + packed
  {
    ZeroIsOneByte();
    hide VarInts.Write, VarInts.WrittenSize;
    assert |data| < VarInts.TWO_31;
    if c.Some? && |data| < c.value.threshold {
      assert |VarInts.Write(0) + data| == |data| + 1;
    }
  }

  lemma ZeroIsOneByte()
    ensures VarInts.Write(0) == [0]
  {
  }

  /** The packet that starts with an id: refused exactly when the id cannot be read. */
  ghost predicate Holds(r: Result<RawPacket>, data: seq<byte>)
  {
    match VarInts.Read(data)
    case Value(id, used) => r.Ok? && r.value.Valid() && r.value.id == id && r.value.Payload() == data[used..]
    case _ => r == Err(ReadFailed)
  }

  /** What the decoder makes of a body: each refusal with its exact cause, and the packet otherwise. */
  lemma BodyIsRefusedExactly(z: Zlib, body: seq<byte>, threshold: Option<nat>)
    requires |body| <= 2_097_152
    ensures var r := ParseBody(z, body, threshold);
            if threshold.None? then Holds(r, body)
            else
              match VarInts.Read(body)
              case Value(v, used) =>
                if v < 0 then r == Err(PacketTooLong(v + 0x1_0000_0000_0000_0000))
                else if v > 8_388_608 then r == Err(PacketTooLong(v))
                else if v == 0 then
                  if |body| - 1 > threshold.value then r == Err(NotCompressed) else Holds(r, body[used..])
                else
                  var out := z.inflate(body[used..]);
                  if out.Some? && |out.value| == v then Holds(r, out.value) else r == Err(DecompressionFailed)
              case _ => r == Err(ReadFailed)
  {
    hide VarInts.ReadGroups, VarInts.BitLength;
    VarInts.SmallSizes(0);
  }

  /** What the decoder makes of an input: the frame's body exactly when it is all there and within the limit. */
  lemma FrameIsRefusedExactly(z: Zlib, input: seq<byte>, threshold: Option<nat>)
    ensures var r := Decode(z, input, threshold);
            match VarInts.Read(input)
            case Value(len, used) =>
              if len < 0 || len > 2_097_152 then r == (Err(OutOfBounds), input[used..])
              else if |input| < used + len then r == (Err(ReadFailed), [])
              else r == (ParseBody(z, input[used..used + len], threshold), input[used + len..])
            case _ => r.0 == Err(ReadFailed)
  {
    hide VarInts.ReadGroups, ParseBody;
    match VarInts.Read(input)
    case Value(len, used) =>
      if 0 <= len && used + len <= |input| {
        assert input[used..][..len] == input[used..used + len] && input[used..][len..] == input[used + len..];
      }
    case _ =>
  }

  /** A length within the limit, and then whatever there is. */
  lemma DecodeAfterLength(z: Zlib, n: nat, rest: seq<byte>, threshold: Option<nat>)
    requires n <= MAX_PACKET_SIZE
    ensures Decode(z, VarInts.Write(n) + rest, threshold) ==
            if |rest| < n then (Err(ReadFailed), []) else (ParseBody(z, rest[..n], threshold), rest[n..])
  {
    hide VarInts.WriteU32, VarInts.ReadGroups, ParseBody;
    VarInts.ReadInvertsWrite(n, rest);
    assert (VarInts.Write(n) + rest)[|VarInts.Write(n)|..] == rest;
  }

  // ----- Streams of frames -----

  datatype Packet = Packet(id: int, payload: seq<byte>)

  /** A packet with the compression setting it was encoded under. */
  datatype Sent = Sent(packet: Packet, setting: Option<Compression>)

  ghost predicate Sendable(z: Zlib, s: Sent)
  {
    && VarInts.IsI32(s.packet.id)
    && ValidCompression(s.setting)
    && var data := PacketData(s.packet.id, s.packet.payload);
    && Encode(z, data, s.setting).Ok?
    && BodyLen(z, data, s.setting) <= MAX_PACKET_SIZE
  }

  ghost function Frame(z: Zlib, s: Sent): (f: seq<byte>)
    requires Sendable(z, s)
    ensures f != []
  {
    Encode(z, PacketData(s.packet.id, s.packet.payload), s.setting).value
  }

  ghost predicate AllSendable(z: Zlib, sent: seq<Sent>)
  {
    forall i | 0 <= i < |sent| :: Sendable(z, sent[i])
  }

  ghost function Frames(z: Zlib, sent: seq<Sent>): (f: seq<seq<byte>>)
    requires AllSendable(z, sent)
    ensures |f| == |sent|
  {
    seq(|sent|, i requires 0 <= i < |sent| => Frame(z, sent[i]))
  }

  ghost function PacketsOf(sent: seq<Sent>): (r: seq<Packet>)
    ensures |r| == |sent|
  {
    seq(|sent|, i requires 0 <= i < |sent| => sent[i].packet)
  }

  /**
    What a receiver makes of an input: packets until the first one that cannot be read. The first
    `plain` of them are read without compression, up to the packet that announces the threshold,
    and the others with it.
   */
  function DecodeAll(z: Zlib, input: seq<byte>, plain: nat, threshold: Option<nat>): (r: (seq<Packet>, seq<byte>))
    decreases |input|
  {
    if input == [] then ([], [])
    else
      var (first, rest) := Decode(z, input, ReaderAt(plain, threshold));
      if first.Err? then ([], rest)
      else
        var (more, end) := DecodeAll(z, rest, Pred(plain), threshold);
        ([Packet(first.value.id, first.value.Payload())] + more, end)
  }

  function ReaderAt(plain: nat, threshold: Option<nat>): (t: Option<nat>)
  {
    if plain > 0 then None else threshold
  }

  function Pred(n: nat): (r: nat)
  {
    if n == 0 then 0 else n - 1
  }

  /** Each packet was encoded under the setting that the receiver has when it gets there. */
  ghost predicate InStepWith(sent: seq<Sent>, plain: nat, c: Option<Compression>)
  {
    forall i | 0 <= i < |sent| :: sent[i].setting == if i < plain then None else c
  }

  lemma InStepTail(sent: seq<Sent>, plain: nat, c: Option<Compression>)
    requires sent != [] && InStepWith(sent, plain, c)
    ensures InStepWith(sent[1..], Pred(plain), c)
    ensures Threshold(sent[0].setting) == ReaderAt(plain, Threshold(c))
  {
    assert forall i | 0 <= i < |sent[1..]| :: sent[1..][i] == sent[i + 1];
  }

  lemma FramesSplit(z: Zlib, sent: seq<Sent>)
    requires sent != [] && AllSendable(z, sent)
    ensures Sendable(z, sent[0]) && AllSendable(z, sent[1..])
    ensures Frames(z, sent) == [Frame(z, sent[0])] + Frames(z, sent[1..])
    ensures Concat(Frames(z, sent)) == Frame(z, sent[0]) + Concat(Frames(z, sent[1..]))
    ensures PacketsOf(sent) == [sent[0].packet] + PacketsOf(sent[1..])
  {
    hide Sendable, Frame;
    var frames := Frames(z, sent);
    assert frames[1..] == Frames(z, sent[1..]);
  }

  /** How many whole frames fit in the first `n` bytes of the concatenation. */
  function WholeFrames(frames: seq<seq<byte>>, n: nat): (k: nat)
    ensures k <= |frames|
  {
    if frames == [] || n < |frames[0]| then 0 else 1 + WholeFrames(frames[1..], n - |frames[0]|)
  }

  lemma OneFrame(z: Zlib, s: Sent, rest: seq<byte>)
    requires z.Inverse() && Sendable(z, s)
    ensures Received(Decode(z, Frame(z, s) + rest, Threshold(s.setting)), s.packet.id, s.packet.payload, rest)
    ensures forall n: nat | n < |Frame(z, s)| ::
              Decode(z, Frame(z, s)[..n], Threshold(s.setting)) == (Err(ReadFailed), [])
  {
    hide Encode, Decode, BodyLen;
    FrameIsReceived(z, s.packet.id, s.packet.payload, s.setting, rest);
    forall n: nat | n < |Frame(z, s)|
      ensures Decode(z, Frame(z, s)[..n], Threshold(s.setting)) == (Err(ReadFailed), [])
    {
      CutFrameIsNotReceived(z, PacketData(s.packet.id, s.packet.payload), s.setting, n);
    }
  }

  /**
    Whatever prefix of a stream of frames has arrived, with compression switched on anywhere in
    it, the receiver has exactly the packets whose frames have arrived whole, in order, and
    nothing else.
   */
  lemma {:induction false} PrefixDecodesToWholePackets(
    z: Zlib, sent: seq<Sent>, plain: nat, c: Option<Compression>, n: nat)
    requires z.Inverse() && AllSendable(z, sent) && InStepWith(sent, plain, c)
    requires n <= |Concat(Frames(z, sent))|
    ensures var frames := Frames(z, sent);
            DecodeAll(z, Concat(frames)[..n], plain, Threshold(c)) == (PacketsOf(sent)[..WholeFrames(frames, n)], [])
    decreases |sent|
  {
    hide Decode, Frame, Sendable, Frames, PacketsOf, InStepWith;
    var frames := Frames(z, sent);
    var input := Concat(frames)[..n];
    if sent != [] {
      FramesSplit(z, sent);
      InStepTail(sent, plain, c);
      var s := sent[0];
      var frame := Frame(z, s);
      var later := Frames(z, sent[1..]);
      assert frames[0] == frame && frames[1..] == later;
      if n < |frame| {
        assert input == frame[..n];
        OneFrame(z, s, []);
      } else {
        var rest := Concat(later)[..n - |frame|];
        assert input == frame + rest;
        OneFrame(z, s, rest);
        PrefixDecodesToWholePackets(z, sent[1..], Pred(plain), c, n - |frame|);
        var k := WholeFrames(later, n - |frame|);
        assert WholeFrames(frames, n) == k + 1;
        assert PacketsOf(sent)[..k + 1] == [s.packet] + PacketsOf(sent[1..])[..k];
      }
    }
  }

  /** One packet, and then the rest. */
  lemma DecodeAllStep(z: Zlib, input: seq<byte>, plain: nat, threshold: Option<nat>)
    requires input != []
    ensures var r := Decode(z, input, ReaderAt(plain, threshold));
            var more := DecodeAll(z, r.1, Pred(plain), threshold);
            DecodeAll(z, input, plain, threshold) ==
            if r.0.Err? then ([], r.1)
            else ([Packet(r.0.value.id, r.0.value.Payload())] + more.0, more.1)
  {
    hide Decode;
  }

  /** A frame in front of anything is decoded first. */
  lemma FrameDecodesFirst(z: Zlib, s: Sent, plain: nat, threshold: Option<nat>, later: seq<byte>)
    requires z.Inverse() && Sendable(z, s) && Threshold(s.setting) == ReaderAt(plain, threshold)
    ensures var more := DecodeAll(z, later, Pred(plain), threshold);
            DecodeAll(z, Frame(z, s) + later, plain, threshold) == ([s.packet] + more.0, more.1)
  {
    hide Decode, DecodeAll, Frame, Sendable;
    OneFrame(z, s, later);
    DecodeAllStep(z, Frame(z, s) + later, plain, threshold);
  }

  lemma Associative<T>(x: seq<T>, y: seq<T>, z: seq<T>)
    ensures (x + y) + z == x + (y + z)
  {
  }

  /** Whole frames in front of anything are decoded first, and the rest from where they end. */
  lemma {:induction false} FramesDecodeFirst(
    z: Zlib, sent: seq<Sent>, plain: nat, c: Option<Compression>, tail: seq<byte>)
    requires z.Inverse() && AllSendable(z, sent) && InStepWith(sent, plain, c)
    ensures var rest := DecodeAll(z, tail, Left(plain, |sent|), Threshold(c));
            DecodeAll(z, Concat(Frames(z, sent)) + tail, plain, Threshold(c)) == (PacketsOf(sent) + rest.0, rest.1)
    decreases |sent|
  {
    hide DecodeAll, Frame, Sendable, Threshold, ReaderAt;
    var rest := DecodeAll(z, tail, Left(plain, |sent|), Threshold(c));
    if sent == [] {
      assert Concat(Frames(z, sent)) + tail == tail && PacketsOf(sent) + rest.0 == rest.0;
    } else {
      hide Concat, InStepWith, Frames, PacketsOf, AllSendable;
      FramesSplit(z, sent);
      InStepTail(sent, plain, c);
      FramesDecodeFirst(z, sent[1..], Pred(plain), c, tail);
      var head, later := Frame(z, sent[0]), Concat(Frames(z, sent[1..]));
      FrameDecodesFirst(z, sent[0], plain, Threshold(c), later + tail);
      Associative(head, later, tail);
      Associative([sent[0].packet], PacketsOf(sent[1..]), rest.0);
    }
  }

  /** How many packets are still to be read without compression after `i` of them. */
  function Left(plain: nat, i: nat): (n: nat)
  {
    if i < plain then plain - i else 0
  }

  /** Packets decoded earlier, in front of what was decoded later. */
  ghost function Behind(packets: seq<Packet>, later: Option<(seq<Packet>, seq<byte>)>)
    : (r: Option<(seq<Packet>, seq<byte>)>)
  {
    if later.None? then None else Some((packets + later.value.0, later.value.1))
  }

  lemma BehindNothing(later: Option<(seq<Packet>, seq<byte>)>)
    ensures Behind([], later) == later
  {
    if later.Some? {
      assert [] + later.value.0 == later.value.0;
    }
  }

  lemma BehindOne(packets: seq<Packet>, p: Packet, later: Option<(seq<Packet>, seq<byte>)>)
    ensures Behind(packets, Behind([p], later)) == Behind(packets + [p], later)
  {
    if later.Some? {
      assert packets + ([p] + later.value.0) == packets + [p] + later.value.0;
    }
  }

  /** Decodes exactly `k` packets off the front. */
  function DecodeMany(z: Zlib, input: seq<byte>, plain: nat, threshold: Option<nat>, k: nat)
    : (r: Option<(seq<Packet>, seq<byte>)>)
    decreases k
  {
    if k == 0 then Some(([], input))
    else
      var (first, rest) := Decode(z, input, ReaderAt(plain, threshold));
      if first.Err? then None
      else
        var tail := DecodeMany(z, rest, Pred(plain), threshold, k - 1);
        if tail.None? then None
        else Some(([Packet(first.value.id, first.value.Payload())] + tail.value.0, tail.value.1))
  }

  /** Decoding any list of encoded packets gives that list and leaves what follows untouched. */
  lemma {:induction false} StreamRoundTrip(
    z: Zlib, sent: seq<Sent>, plain: nat, c: Option<Compression>, rest: seq<byte>)
    requires z.Inverse() && AllSendable(z, sent) && InStepWith(sent, plain, c)
    ensures DecodeMany(z, Concat(Frames(z, sent)) + rest, plain, Threshold(c), |sent|) == Some((PacketsOf(sent), rest))
    decreases |sent|
  {
    if sent == [] {
      assert Concat(Frames(z, sent)) + rest == rest && PacketsOf(sent) == [];
    } else {
      hide Decode, Frame, Sendable, InStepWith, Frames, PacketsOf;
      FramesSplit(z, sent);
      InStepTail(sent, plain, c);
      var s := sent[0];
      var tail := Concat(Frames(z, sent[1..])) + rest;
      var input := Concat(Frames(z, sent)) + rest;
      assert input == Frame(z, s) + tail;
      OneFrame(z, s, tail);
      StreamRoundTrip(z, sent[1..], Pred(plain), c, rest);
      var first := Decode(z, input, ReaderAt(plain, Threshold(c))).0;
      assert Packet(first.value.id, first.value.Payload()) == s.packet;
    }
  }

  // ----- A packet that misses the switch -----

  /**
    The payload inflates to the packet's own data, in as many bytes as the packet's id says. Nothing
    short of a zlib stream that contains itself does this.
   */
  predicate InflatesToItself(z: Zlib, p: Packet)
  {
    && 0 < p.id <= MAX_PACKET_DATA_SIZE
    && var out := z.inflate(p.payload);
    && out.Some? && |out.value| == p.id
    && var reading := VarInts.Read(out.value);
    && reading.Value? && reading.v == p.id && out.value[reading.used..] == p.payload
  }

  /**
    A packet that was encoded without compression and reaches a receiver that expects it is never
    received intact, except in that one case: the receiver takes the packet id for the data length.
   */
  lemma StaleFrameIsMisread(z: Zlib, p: Packet, threshold: nat, rest: seq<byte>)
    requires Sendable(z, Sent(p, None))
    ensures Received(Decode(z, Frame(z, Sent(p, None)) + rest, Some(threshold)), p.id, p.payload, rest)
       <==> InflatesToItself(z, p)
  {
    hide VarInts.WriteU32, VarInts.ReadGroups, VarInts.BitLength;
    var data := PacketData(p.id, p.payload);
    FrameShape(z, data, None);
    assert Frame(z, Sent(p, None)) == VarInts.Write(|data|) + data;
    DecodeFrame(z, data, Some(threshold), rest);
    VarInts.ReadInvertsWrite(p.id, p.payload);
    assert data[|VarInts.Write(p.id)|..] == p.payload;
    var r := ParseBody(z, data, Some(threshold));
    if p.id == 0 && r.Ok? {
      assert r.value == ParseId(data, |VarInts.Write(p.id)|).value;
      assert |r.value.Payload()| < |p.payload|;
    }
  }
}

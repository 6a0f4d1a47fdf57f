/** The node-side wire formats of firmware/common/telemetry_packet.h: the packed
    structures as byte images in the targets' little-endian order, their constants, and
    the key-value pair writers of the generic packet. */
module TelemetryPacket {
  import opened Bytes
  import opened Wrappers

  // ---------------------------------------------------------------------
  // Constants

  const SensorPacketVersion: uint8 := 1
  const FlagIsAlert: uint8 := 0x01
  const AlertNone: uint8 := 0
  const AlertRapidDrop: uint8 := 1
  const AlertRapidRise: uint8 := 2
  const AlertSensorStuck: uint8 := 3

  const AckMagic: uint8 := 0xAC
  const AckVersion: uint8 := 1
  const AckStatusOk: uint8 := 0
  const AckStatusQueued: uint8 := 1
  const AckStatusError: uint8 := 2

  const Ultra01Magic: uint8 := 0xA1
  const Ultra01Version: uint8 := 1
  const Ultra01FlagLowBattery: uint8 := 0x01
  const Ultra01FlagSensorError: uint8 := 0x02

  const DataTypeInt8: uint8 := 0x01
  const DataTypeUint8: uint8 := 0x02
  const DataTypeInt16: uint8 := 0x03
  const DataTypeUint16: uint8 := 0x04
  const DataTypeInt32: uint8 := 0x05
  const DataTypeUint32: uint8 := 0x06
  const DataTypeFloat: uint8 := 0x07
  const DataTypeBool: uint8 := 0x08
  const DataTypeString: uint8 := 0x09

  const MaxDataPairs: nat := 10
  const GenericPacketVersion: uint8 := 2
  const GenericPacketMagic: uint8 := 0xDA
  const DataPairHeaderSize: nat := 3
  const MaxGenericPacketSize: nat := 250
  const MaxLabelLen: nat := 31

  /** `sizeof` of the packed structures. */
  const SensorPacketSize: nat := 30
  const AckPacketSize: nat := 11
  const Ultra01PacketSize: nat := 12
  const GenericHeaderSize: nat := 19

  // ---------------------------------------------------------------------
  // SensorPacketV1

  datatype SensorPacketV1 = SensorPacketV1(
    version: uint8, nodeId: uint8, mac: Mac, seqNum: uint32,
    distanceCm: int16, levelCm: int16, percentual: uint8, volumeL: uint32, vinMv: int16,
    flags: uint8, alertType: uint8,
    rssi: int8, tsMs: uint32)

  /** The 30 bytes `memcpy` sends: every field at its packed offset. */
  function EncodeSensor(p: SensorPacketV1): (r: seq<uint8>)
    ensures |r| == SensorPacketSize
    ensures r[0] == p.version && r[1] == p.nodeId && r[2..8] == p.mac
    ensures r[8..12] == LE32(p.seqNum)
    ensures r[12..14] == LEI16(p.distanceCm) && r[14..16] == LEI16(p.levelCm)
    ensures r[16] == p.percentual && r[17..21] == LE32(p.volumeL)
    ensures r[21..23] == LEI16(p.vinMv)
    ensures r[23] == p.flags && r[24] == p.alertType && r[25] == Bits8(p.rssi)
    ensures r[26..30] == LE32(p.tsMs)
  {
    [p.version, p.nodeId] + p.mac + LE32(p.seqNum)
    + LEI16(p.distanceCm) + LEI16(p.levelCm) + [p.percentual] + LE32(p.volumeL)
    + LEI16(p.vinMv) + [p.flags, p.alertType, Bits8(p.rssi)] + LE32(p.tsMs)
  }

  /** Reading a frame into the structure: any 30 bytes are a packet. */
  function DecodeSensor(b: seq<uint8>): (r: Option<SensorPacketV1>)
    ensures r.Some? <==> |b| == SensorPacketSize
  {
    if |b| != SensorPacketSize then None
    else Some(SensorPacketV1(
      b[0], b[1], b[2..8], U32Of(b[8..12]),
      I16Of(b[12..14]), I16Of(b[14..16]), b[16], U32Of(b[17..21]), I16Of(b[21..23]),
      b[23], b[24], Signed8(b[25]), U32Of(b[26..30])))
  }

  lemma SensorRoundTrip(p: SensorPacketV1)
    ensures DecodeSensor(EncodeSensor(p)) == Some(p)
  {
    var b := EncodeSensor(p);
    LE32RoundTrip(p.seqNum);
    LE32RoundTrip(p.volumeL);
    LE32RoundTrip(p.tsMs);
    I16RoundTrip(p.distanceCm);
    I16RoundTrip(p.levelCm);
    I16RoundTrip(p.vinMv);
    Int8RoundTrip(p.rssi);
  }

  /** Every 30-byte frame is the image of exactly the packet it decodes to. */
  lemma SensorBytesRoundTrip(b: seq<uint8>)
    requires |b| == SensorPacketSize
    ensures DecodeSensor(b).Some? && EncodeSensor(DecodeSensor(b).value) == b
  {
    U32OfInjective(b[8..12]);
    U32OfInjective(b[17..21]);
    U32OfInjective(b[26..30]);
    I16OfInjective(b[12..14]);
    I16OfInjective(b[14..16]);
    I16OfInjective(b[21..23]);
    Bits8OfSigned(b[25]);
    var e := EncodeSensor(DecodeSensor(b).value);
    assert e[..8] == b[..8];
    assert e == b[..8] + b[8..12] + b[12..14] + b[14..16] + [b[16]] + b[17..21]
      + b[21..23] + [b[23], b[24], b[25]] + b[26..30];
  }

  // ---------------------------------------------------------------------
  // AckPacket

  datatype AckPacket = AckPacket(
    magic: uint8, version: uint8, nodeId: uint8, ackSeq: uint32,
    rssi: int8, status: uint8, gatewayId: uint8, reserved: uint8)

  function EncodeAck(a: AckPacket): (r: seq<uint8>)
    ensures |r| == AckPacketSize
    ensures r[0] == a.magic && r[1] == a.version && r[2] == a.nodeId
    ensures r[3..7] == LE32(a.ackSeq)
    ensures r[7] == Bits8(a.rssi) && r[8] == a.status && r[9] == a.gatewayId && r[10] == a.reserved
  {
    [a.magic, a.version, a.nodeId] + LE32(a.ackSeq) + [Bits8(a.rssi), a.status, a.gatewayId, a.reserved]
  }

  function DecodeAck(b: seq<uint8>): (r: Option<AckPacket>)
    ensures r.Some? <==> |b| == AckPacketSize
  {
    if |b| != AckPacketSize then None
    else Some(AckPacket(b[0], b[1], b[2], U32Of(b[3..7]), Signed8(b[7]), b[8], b[9], b[10]))
  }

  lemma AckRoundTrip(a: AckPacket)
    ensures DecodeAck(EncodeAck(a)) == Some(a)
  {
    LE32RoundTrip(a.ackSeq);
    Int8RoundTrip(a.rssi);
  }

  lemma AckBytesRoundTrip(b: seq<uint8>)
    requires |b| == AckPacketSize
    ensures DecodeAck(b).Some? && EncodeAck(DecodeAck(b).value) == b
  {
    U32OfInjective(b[3..7]);
    Bits8OfSigned(b[7]);
    assert b == b[..3] + b[3..7] + [b[7], b[8], b[9], b[10]];
  }

  // ---------------------------------------------------------------------
  // aguadaUltrasonic01Packet

  datatype Ultra01Packet = Ultra01Packet(
    magic: uint8, version: uint8, nodeId: uint8, distanceCm: int16,
    flags: uint8, reserved: uint8, rssi: int8, tsMs: uint32)

  function EncodeUltra01(p: Ultra01Packet): (r: seq<uint8>)
    ensures |r| == Ultra01PacketSize
    ensures r[0] == p.magic && r[1] == p.version && r[2] == p.nodeId
    ensures r[3..5] == LEI16(p.distanceCm)
    ensures r[5] == p.flags && r[6] == p.reserved && r[7] == Bits8(p.rssi)
    ensures r[8..12] == LE32(p.tsMs)
  {
    [p.magic, p.version, p.nodeId] + LEI16(p.distanceCm) + [p.flags, p.reserved, Bits8(p.rssi)]
    + LE32(p.tsMs)
  }

  function DecodeUltra01(b: seq<uint8>): (r: Option<Ultra01Packet>)
    ensures r.Some? <==> |b| == Ultra01PacketSize
  {
    if |b| != Ultra01PacketSize then None
    else Some(Ultra01Packet(b[0], b[1], b[2], I16Of(b[3..5]), b[5], b[6], Signed8(b[7]), U32Of(b[8..12])))
  }

  lemma Ultra01RoundTrip(p: Ultra01Packet)
    ensures DecodeUltra01(EncodeUltra01(p)) == Some(p)
  {
    I16RoundTrip(p.distanceCm);
    Int8RoundTrip(p.rssi);
    LE32RoundTrip(p.tsMs);
  }

  lemma Ultra01BytesRoundTrip(b: seq<uint8>)
    requires |b| == Ultra01PacketSize
    ensures DecodeUltra01(b).Some? && EncodeUltra01(DecodeUltra01(b).value) == b
  {
    I16OfInjective(b[3..5]);
    Bits8OfSigned(b[7]);
    U32OfInjective(b[8..12]);
    assert b == b[..3] + b[3..5] + [b[5], b[6], b[7]] + b[8..12];
  }

  // ---------------------------------------------------------------------
  // GenericPacketHeader

  datatype GenericPacketHeader = GenericPacketHeader(
    magic: uint8, version: uint8, nodeId: uint8, mac: Mac, seqNum: uint32,
    pairCount: uint8, rssi: int8, tsMs: uint32)

  function EncodeGenericHeader(h: GenericPacketHeader): (r: seq<uint8>)
    ensures |r| == GenericHeaderSize
    ensures r[0] == h.magic && r[1] == h.version && r[2] == h.nodeId && r[3..9] == h.mac
    ensures r[9..13] == LE32(h.seqNum) && r[13] == h.pairCount && r[14] == Bits8(h.rssi)
    ensures r[15..19] == LE32(h.tsMs)
  {
    [h.magic, h.version, h.nodeId] + h.mac + LE32(h.seqNum) + [h.pairCount, Bits8(h.rssi)] + LE32(h.tsMs)
  }

  function DecodeGenericHeader(b: seq<uint8>): (r: Option<GenericPacketHeader>)
    ensures r.Some? <==> |b| == GenericHeaderSize
  {
    if |b| != GenericHeaderSize then None
    else Some(GenericPacketHeader(b[0], b[1], b[2], b[3..9], U32Of(b[9..13]), b[13],
                                  Signed8(b[14]), U32Of(b[15..19])))
  }

  lemma GenericHeaderRoundTrip(h: GenericPacketHeader)
    ensures DecodeGenericHeader(EncodeGenericHeader(h)) == Some(h)
  {
    LE32RoundTrip(h.seqNum);
    LE32RoundTrip(h.tsMs);
    Int8RoundTrip(h.rssi);
  }

  lemma GenericHeaderBytesRoundTrip(b: seq<uint8>)
    requires |b| == GenericHeaderSize
    ensures DecodeGenericHeader(b).Some? && EncodeGenericHeader(DecodeGenericHeader(b).value) == b
  {
    U32OfInjective(b[9..13]);
    Bits8OfSigned(b[14]);
    U32OfInjective(b[15..19]);
    assert b == b[..3] + b[3..9] + b[9..13] + [b[13], b[14]] + b[15..19];
  }

  // ---------------------------------------------------------------------
  // Key-value pairs: [key length][key][type tag][value length][value]

  /** The bytes of a C string before its terminator. */
  predicate CString(s: seq<uint8>) {
    forall i :: 0 <= i < |s| ==> s[i] != 0
  }

  /** The stored length of a key or string value: its `strlen` is first narrowed to
      `uint8_t` and only then capped at 31, so a 256-byte key is stored as empty. */
  function CappedLen(s: seq<uint8>): (n: nat)
    ensures n <= MaxLabelLen && n <= |s|
    ensures |s| <= MaxLabelLen ==> n == |s|
    ensures MaxLabelLen < |s| % 0x100 ==> n == MaxLabelLen
    ensures |s| % 0x100 <= MaxLabelLen ==> n == |s| % 0x100
  {
    var narrowed := |s| % 0x100;
    if narrowed > MaxLabelLen then MaxLabelLen else narrowed
  }

  /** `data_pair_size`: the bytes one pair takes in the packet. */
  function DataPairSize(key: seq<uint8>, valueLen: uint8): (n: uint16)
    ensures n as int <= 3 + MaxLabelLen + 0xFF
  {
    (1 + CappedLen(key) + 1 + 1 + valueLen as int) as uint16
  }

  /** The documented layout of one pair. */
  function PairBytes(key: seq<uint8>, tag: uint8, value: seq<uint8>): (r: seq<uint8>)
    requires |value| < 0x100
  {
    [CappedLen(key) as uint8] + key[..CappedLen(key)] + [tag, |value| as uint8] + value
  }

  /** The layout is self-delimiting: its first byte gives the key's length, the two
      bytes after the key give the type tag and the value's length, and the value
      runs to the end; its total length is what `data_pair_size` computes. */
  lemma PairBytesLayout(key: seq<uint8>, tag: uint8, value: seq<uint8>)
    requires |value| < 0x100
    ensures var r := PairBytes(key, tag, value);
      var ll := r[0] as int;
      && ll == CappedLen(key)
      && |r| == 3 + ll + r[ll + 2] as int
      && |r| == DataPairSize(key, |value| as uint8) as int
      && r[1..1 + ll] == key[..ll]
      && r[ll + 1] == tag
      && r[ll + 3..] == value
  {
    var r := PairBytes(key, tag, value);
    var ll := CappedLen(key);
    assert r == [ll as uint8] + key[..ll] + [tag, |value| as uint8] + value;
    assert r[1..1 + ll] == key[..ll];
    assert r[ll + 3..] == value;
  }

  /** Reading one pair back from the front of a byte sequence, as the layout describes:
      the key, the type tag, the value and whatever follows. */
  function ParsePair(b: seq<uint8>): (r: Option<(seq<uint8>, uint8, seq<uint8>, seq<uint8>)>)
    ensures r.Some? ==> |r.value.0| <= 0xFF && |r.value.2| <= 0xFF
    ensures r.Some? ==> |r.value.3| < |b|
  {
    if |b| < 1 then None
    else
      var kl := b[0] as int;
      if |b| < kl + 3 then None
      else
        var vl := b[kl + 2] as int;
        if |b| < kl + 3 + vl then None
        else Some((b[1..1 + kl], b[kl + 1], b[kl + 3..kl + 3 + vl], b[kl + 3 + vl..]))
  }

  /** A written pair parses back to its (capped) key, its tag and its value, leaving
      the bytes after it untouched, so pairs written back to back read back in order. */
  lemma PairRoundTrip(key: seq<uint8>, tag: uint8, value: seq<uint8>, rest: seq<uint8>)
    requires |value| < 0x100
    ensures ParsePair(PairBytes(key, tag, value) + rest)
         == Some((key[..CappedLen(key)], tag, value, rest))
  {
    var ll := CappedLen(key);
    var b := PairBytes(key, tag, value) + rest;
    assert b == [ll as uint8] + key[..ll] + [tag, |value| as uint8] + value + rest;
    assert b[0] as int == ll;
    assert b[ll + 2] as int == |value|;
    assert b[1..1 + ll] == key[..ll];
    assert b[ll + 3..ll + 3 + |value|] == value;
    assert b[ll + 3 + |value|..] == rest;
  }

  /** `memcpy(&buffer[at], src, |src|)`: the bytes of `src` land at `at`, and nothing
      before or after them changes. */
  method CopyBytes(buffer: array<uint8>, at: nat, src: seq<uint8>)
    requires at + |src| <= buffer.Length
    modifies buffer
    ensures buffer[at..at + |src|] == src
    ensures buffer[..at] == old(buffer[..at])
    ensures buffer[at + |src|..] == old(buffer[at + |src|..])
  {
    var i := 0;
    while i < |src|
      invariant 0 <= i <= |src|
      invariant buffer[at..at + i] == src[..i]
      invariant buffer[..at] == old(buffer[..at])
      invariant buffer[at + i..] == old(buffer[at + i..])
    {
      buffer[at + i] := src[i];
      i := i + 1;
    }
  }

  /** The common body of the `add_*_pair` writers: header, key, tag, value length
      and value bytes written from the start of `buffer`, and nothing past them. */
  method WritePair(buffer: array<uint8>, key: seq<uint8>, tag: uint8, value: seq<uint8>)
    returns (offset: uint16)
    requires |value| < 0x100
    requires buffer.Length >= 3 + CappedLen(key) + |value|
    modifies buffer
    ensures offset as int == 3 + CappedLen(key) + |value|
    ensures buffer[..offset] == PairBytes(key, tag, value)
    ensures buffer[offset..] == old(buffer[offset..])
  {
    var labelLen := CappedLen(key);
    var n := 3 + labelLen + |value|;
    ghost var tail := buffer[n..];
    buffer[0] := labelLen as uint8;
    assert buffer[n..] == tail;
    ghost var mid := buffer[1 + labelLen..];
    CopyBytes(buffer, 1, key[..labelLen]);
    assert buffer[1 + labelLen..] == mid;
    assert buffer[n..] == mid[n - 1 - labelLen..] == tail;
    buffer[1 + labelLen] := tag;
    buffer[2 + labelLen] := |value| as uint8;
    ghost var head := buffer[..3 + labelLen];
    assert head == [labelLen as uint8] + key[..labelLen] + [tag, |value| as uint8];
    assert buffer[n..] == tail;
    CopyBytes(buffer, 3 + labelLen, value);
    offset := n as uint16;
    assert buffer[..offset] == buffer[..3 + labelLen] + buffer[3 + labelLen..n];
  }

  method AddInt32Pair(buffer: array<uint8>, key: seq<uint8>, value: int32) returns (offset: uint16)
    requires CString(key)
    requires buffer.Length >= DataPairSize(key, 4) as int
    modifies buffer
    ensures offset == DataPairSize(key, 4)
    ensures buffer[..offset] == PairBytes(key, DataTypeInt32, LEI32(value))
    ensures buffer[offset..] == old(buffer[offset..])
  {
    offset := WritePair(buffer, key, DataTypeInt32, LEI32(value));
  }

  method AddUint32Pair(buffer: array<uint8>, key: seq<uint8>, value: uint32) returns (offset: uint16)
    requires CString(key)
    requires buffer.Length >= DataPairSize(key, 4) as int
    modifies buffer
    ensures offset == DataPairSize(key, 4)
    ensures buffer[..offset] == PairBytes(key, DataTypeUint32, LE32(value))
    ensures buffer[offset..] == old(buffer[offset..])
  {
    offset := WritePair(buffer, key, DataTypeUint32, LE32(value));
  }

  /** The float is given by its IEEE-754 bit pattern, copied as four opaque bytes. */
  method AddFloatPair(buffer: array<uint8>, key: seq<uint8>, valueBits: uint32) returns (offset: uint16)
    requires CString(key)
    requires buffer.Length >= DataPairSize(key, 4) as int
    modifies buffer
    ensures offset == DataPairSize(key, 4)
    ensures buffer[..offset] == PairBytes(key, DataTypeFloat, LE32(valueBits))
    ensures buffer[offset..] == old(buffer[offset..])
  {
    offset := WritePair(buffer, key, DataTypeFloat, LE32(valueBits));
  }

  method AddInt16Pair(buffer: array<uint8>, key: seq<uint8>, value: int16) returns (offset: uint16)
    requires CString(key)
    requires buffer.Length >= DataPairSize(key, 2) as int
    modifies buffer
    ensures offset == DataPairSize(key, 2)
    ensures buffer[..offset] == PairBytes(key, DataTypeInt16, LEI16(value))
    ensures buffer[offset..] == old(buffer[offset..])
  {
    offset := WritePair(buffer, key, DataTypeInt16, LEI16(value));
  }

  method AddUint8Pair(buffer: array<uint8>, key: seq<uint8>, value: uint8) returns (offset: uint16)
    requires CString(key)
    requires buffer.Length >= DataPairSize(key, 1) as int
    modifies buffer
    ensures offset == DataPairSize(key, 1)
    ensures buffer[..offset] == PairBytes(key, DataTypeUint8, [value])
    ensures buffer[offset..] == old(buffer[offset..])
  {
    offset := WritePair(buffer, key, DataTypeUint8, [value]);
  }

  method AddBoolPair(buffer: array<uint8>, key: seq<uint8>, value: bool) returns (offset: uint16)
    requires CString(key)
    requires buffer.Length >= DataPairSize(key, 1) as int
    modifies buffer
    ensures offset == DataPairSize(key, 1)
    ensures buffer[..offset] == PairBytes(key, DataTypeBool, [if value then 1 else 0])
    ensures buffer[offset..] == old(buffer[offset..])
  {
    offset := WritePair(buffer, key, DataTypeBool, [if value then 1 else 0]);
  }

  /** The string value is capped like the key (narrowed to eight bits, then to 31),
      so a string pair never takes more than 65 bytes. */
  method AddStringPair(buffer: array<uint8>, key: seq<uint8>, value: seq<uint8>) returns (offset: uint16)
    requires CString(key) && CString(value)
    requires buffer.Length >= DataPairSize(key, CappedLen(value) as uint8) as int
    modifies buffer
    ensures offset == DataPairSize(key, CappedLen(value) as uint8)
    ensures offset as int == 3 + CappedLen(key) + CappedLen(value) <= 65
    ensures buffer[..offset] == PairBytes(key, DataTypeString, value[..CappedLen(value)])
    ensures buffer[offset..] == old(buffer[offset..])
  {
    offset := WritePair(buffer, key, DataTypeString, value[..CappedLen(value)]);
  }
}

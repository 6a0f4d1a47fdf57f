/** The gateway's own copy of the packet header (gateway_devkit_v1/main/telemetry_packet.h):
    `SensorPacketV1`, `AckPacket` and their constants, declared again rather than shared
    with the nodes. The lemmas show that the two declarations agree byte for byte. */
module GatewayPacket {
  import opened Bytes
  import opened Wrappers
  import TelemetryPacket

  const SensorPacketVersion: uint8 := 1
  const FlagIsAlert: uint8 := 0x01
  const AlertNone: uint8 := 0
  const AlertRapidDrop: uint8 := 1
  const AlertRapidRise: uint8 := 2
  const AlertSensorStuck: uint8 := 3

  const AckMagic: uint8 := 0xAC
  const AckVersion: uint8 := 1
  const AckStatusOk: uint8 := 0
  const AckStatusQueued: uint8 := 1
  const AckStatusError: uint8 := 2

  const SensorPacketSize: nat := 30
  const AckPacketSize: nat := 11

  datatype SensorPacketV1 = SensorPacketV1(
    version: uint8, nodeId: uint8, mac: Mac, seqNum: uint32,
    distanceCm: int16, levelCm: int16, percentual: uint8, volumeL: uint32, vinMv: int16,
    flags: uint8, alertType: uint8,
    rssi: int8, tsMs: uint32)

  datatype AckPacket = AckPacket(
    magic: uint8, version: uint8, nodeId: uint8, ackSeq: uint32,
    rssi: int8, status: uint8, gatewayId: uint8, reserved: uint8)

  /** The gateway's in-memory layout of a sensor packet. */
  function EncodeSensor(p: SensorPacketV1): (r: seq<uint8>)
    ensures |r| == SensorPacketSize
    ensures r[0] == p.version && r[1] == p.nodeId && r[2..8] == p.mac
    ensures r[8..12] == LE32(p.seqNum) && r[12..14] == LEI16(p.distanceCm)
    ensures r[14..16] == LEI16(p.levelCm) && r[16] == p.percentual
    ensures r[17..21] == LE32(p.volumeL) && r[21..23] == LEI16(p.vinMv)
    ensures r[23] == p.flags && r[24] == p.alertType && r[25] == Bits8(p.rssi)
    ensures r[26..30] == LE32(p.tsMs)
  {
    [p.version, p.nodeId] + p.mac + LE32(p.seqNum)
    + LEI16(p.distanceCm) + LEI16(p.levelCm) + [p.percentual] + LE32(p.volumeL)
    + LEI16(p.vinMv) + [p.flags, p.alertType, Bits8(p.rssi)] + LE32(p.tsMs)
  }

  /** `memcpy` of a received frame into the gateway's structure. */
  function DecodeSensor(b: seq<uint8>): (r: Option<SensorPacketV1>)
    ensures r.Some? <==> |b| == SensorPacketSize
  {
    if |b| != SensorPacketSize then None
    else Some(SensorPacketV1(
      b[0], b[1], b[2..8], U32Of(b[8..12]),
      I16Of(b[12..14]), I16Of(b[14..16]), b[16], U32Of(b[17..21]), I16Of(b[21..23]),
      b[23], b[24], Signed8(b[25]), U32Of(b[26..30])))
  }

  function EncodeAck(a: AckPacket): (r: seq<uint8>)
    ensures |r| == AckPacketSize
    ensures r[0] == a.magic && r[1] == a.version && r[2] == a.nodeId
    ensures r[3..7] == LE32(a.ackSeq)
    ensures r[7] == Bits8(a.rssi) && r[8] == a.status && r[9] == a.gatewayId && r[10] == a.reserved
  {
    [a.magic, a.version, a.nodeId] + LE32(a.ackSeq) + [Bits8(a.rssi), a.status, a.gatewayId, a.reserved]
  }

  /** A frame a node encodes decodes at the gateway to the same value in every field. */
  lemma NodeFrameDecodes(p: TelemetryPacket.SensorPacketV1)
    ensures var d := DecodeSensor(TelemetryPacket.EncodeSensor(p));
      && d.Some?
      && d.value.version == p.version && d.value.nodeId == p.nodeId && d.value.mac == p.mac
      && d.value.seqNum == p.seqNum && d.value.distanceCm == p.distanceCm
      && d.value.levelCm == p.levelCm && d.value.percentual == p.percentual
      && d.value.volumeL == p.volumeL && d.value.vinMv == p.vinMv
      && d.value.flags == p.flags && d.value.alertType == p.alertType
      && d.value.rssi == p.rssi && d.value.tsMs == p.tsMs
  {
    LE32RoundTrip(p.seqNum);
    LE32RoundTrip(p.volumeL);
    LE32RoundTrip(p.tsMs);
    I16RoundTrip(p.distanceCm);
    I16RoundTrip(p.levelCm);
    I16RoundTrip(p.vinMv);
    Int8RoundTrip(p.rssi);
  }

  /** Every 30-byte frame is the image of exactly the packet the gateway reads from it. */
  lemma GatewaySensorBytesRoundTrip(b: seq<uint8>)
    requires |b| == SensorPacketSize
    ensures DecodeSensor(b).Some? && EncodeSensor(DecodeSensor(b).value) == b
  {
    U32OfInjective(b[8..12]);
    U32OfInjective(b[17..21]);
    U32OfInjective(b[26..30]);
    I16OfInjective(b[12..14]);
    I16OfInjective(b[14..16]);
    I16OfInjective(b[21..23]);
    Bits8OfSigned(b[25]);
    var e := EncodeSensor(DecodeSensor(b).value);
    assert e[..8] == b[..8];
    assert e == b[..8] + b[8..12] + b[12..14] + b[14..16] + [b[16]] + b[17..21]
      + b[21..23] + [b[23], b[24], b[25]] + b[26..30];
  }

  /** Both copies lay a sensor packet out identically: equal fields give equal bytes. */
  lemma SameSensorLayout(p: TelemetryPacket.SensorPacketV1, g: SensorPacketV1)
    requires g.version == p.version && g.nodeId == p.nodeId && g.mac == p.mac
    requires g.seqNum == p.seqNum && g.distanceCm == p.distanceCm && g.levelCm == p.levelCm
    requires g.percentual == p.percentual && g.volumeL == p.volumeL && g.vinMv == p.vinMv
    requires g.flags == p.flags && g.alertType == p.alertType
    requires g.rssi == p.rssi && g.tsMs == p.tsMs
    ensures EncodeSensor(g) == TelemetryPacket.EncodeSensor(p)
  {
  }

  /** An acknowledgement laid out by the gateway's declaration decodes at a node to the
      same fields. */
  lemma GatewayAckDecodes(a: AckPacket)
    ensures var d := TelemetryPacket.DecodeAck(EncodeAck(a));
      && d.Some?
      && d.value.magic == a.magic && d.value.version == a.version && d.value.nodeId == a.nodeId
      && d.value.ackSeq == a.ackSeq && d.value.rssi == a.rssi && d.value.status == a.status
      && d.value.gatewayId == a.gatewayId && d.value.reserved == a.reserved
  {
    LE32RoundTrip(a.ackSeq);
    Int8RoundTrip(a.rssi);
  }

  /** The two copies agree on every shared constant. */
  lemma SharedConstantsAgree()
    ensures SensorPacketVersion == TelemetryPacket.SensorPacketVersion
    ensures FlagIsAlert == TelemetryPacket.FlagIsAlert
    ensures AlertNone == TelemetryPacket.AlertNone && AlertRapidDrop == TelemetryPacket.AlertRapidDrop
    ensures AlertRapidRise == TelemetryPacket.AlertRapidRise
    ensures AlertSensorStuck == TelemetryPacket.AlertSensorStuck
    ensures AckMagic == TelemetryPacket.AckMagic && AckVersion == TelemetryPacket.AckVersion
    ensures AckStatusOk == TelemetryPacket.AckStatusOk
    ensures AckStatusQueued == TelemetryPacket.AckStatusQueued
    ensures AckStatusError == TelemetryPacket.AckStatusError
    ensures SensorPacketSize == TelemetryPacket.SensorPacketSize
    ensures AckPacketSize == TelemetryPacket.AckPacketSize
  {
  }
}

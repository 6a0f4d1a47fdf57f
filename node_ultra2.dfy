/** The two-tank node (node_ultra2.cpp): two HC-SR04 sensors on one ESP32-C3, each
    reported as its own packet per cycle (sensor B under a fixed, made-up MAC), with one
    sequence counter shared by both and persisted after every send. The supply-voltage
    read, the send wrapper and the LED driver are the same code as in node_ultra1. */
module NodeUltra2 {
  import opened Bytes
  import opened Wrappers
  import opened Hardware
  import LevelCalculator
  import Ultrasonic
  import TelemetryPacket
  import NodeUltra1

  const TankModel: LevelCalculator.Model := LevelCalculator.Ultra2Model
  const NodeId: uint8 := 2
  /** The MAC sensor B's packets claim, so the gateway sees it as a device of its own. */
  const SensorBMac: Mac := [0xAA, 0xBB, 0xCC, 0xDD, 0xEE, 0xC2]

  /** What `measure_sensor` returns: the distance, whether it passed the range check,
      and how many of the three readings did not time out. */
  datatype DistanceResult = DistanceResult(valueCm: int, valid: bool, validSamples: nat)

  /** The five figures `compute_values` gathers for one packet. */
  datatype TelemetryValues = TelemetryValues(distanceCm: int, levelCm: int, percentual: int, volumeL: int, vinMv: int)

  /** `measure_sensor`. It applies node_ultra1's median-with-sentinel rule to the three
      readings, but keeps the failure value -1 unclamped and marks every out-of-range
      median invalid: valid exactly when the chosen distance lies in [5, 450], in which
      case it is that distance; otherwise clamped into range, or -1 on failure. */
  method MeasureSensor(echoes: seq<Ultrasonic.Echo>) returns (res: DistanceResult)
    requires |echoes| == NodeUltra1.UltraSampleRetries
    ensures var readings := Ultrasonic.Readings(echoes);
      var chosen := NodeUltra1.ChooseDistance(readings);
      && res.validSamples + NodeUltra1.Timeouts(readings) == NodeUltra1.UltraSampleRetries
      && (res.valid <==> NodeUltra1.MinValidCm <= chosen <= NodeUltra1.MaxValidCm)
      && (res.valid ==> res.valueCm == chosen)
      && (chosen == -1 ==> res.valueCm == -1)
      && (chosen != -1 ==> res.valueCm == NodeUltra1.RangeClamp(chosen))
  {
    var readings, validCount := NodeUltra1.SampleReadings(echoes);
    NodeUltra1.ReadingsWellFormed(echoes);
    NodeUltra1.FailureIffTwoTimeouts(readings);
    res := DistanceResult(-1, false, validCount);
    if validCount == 0 {
      return;
    }
    var a := if readings[0] < 0 then NodeUltra1.Sentinel else readings[0];
    var b := if readings[1] < 0 then NodeUltra1.Sentinel else readings[1];
    var c := if readings[2] < 0 then NodeUltra1.Sentinel else readings[2];
    var med := Ultrasonic.Median3(a, b, c);
    if med > 9999 {
      res := res.(valueCm := -1);
      return;
    }
    res := res.(valueCm := med);
    if res.valueCm < NodeUltra1.MinValidCm || res.valueCm > NodeUltra1.MaxValidCm {
      if res.valueCm < NodeUltra1.MinValidCm {
        res := res.(valueCm := NodeUltra1.MinValidCm);
      }
      if res.valueCm > NodeUltra1.MaxValidCm {
        res := res.(valueCm := NodeUltra1.MaxValidCm);
      }
    } else {
      res := res.(valid := true);
    }
  }

  /** The main loop's choice: the measured distance when valid, 5 cm otherwise. */
  function UsedDistance(res: DistanceResult): (d: int)
    ensures res.valid ==> d == res.valueCm
    ensures !res.valid ==> d == NodeUltra1.MinValidCm
  {
    if res.valid then res.valueCm else NodeUltra1.MinValidCm
  }

  /** The distance a sensor's packet carries for the given readings: the chosen median
      when it lies in [5, 450], and 5 cm in every other case. */
  function ReportedDistance(readings: seq<int>): (d: int)
    requires |readings| == NodeUltra1.UltraSampleRetries
    ensures NodeUltra1.MinValidCm <= d <= NodeUltra1.MaxValidCm
    ensures NodeUltra1.MinValidCm <= NodeUltra1.ChooseDistance(readings) <= NodeUltra1.MaxValidCm
            ==> d == NodeUltra1.ChooseDistance(readings)
  {
    var chosen := NodeUltra1.ChooseDistance(readings);
    if NodeUltra1.MinValidCm <= chosen <= NodeUltra1.MaxValidCm then chosen else NodeUltra1.MinValidCm
  }

  /** Every invalid result, a median beyond 450 cm included, is reported as 5 cm, that
      is as a full tank; node_ultra1 would clamp such a median to 450 cm instead. For
      readings of what `MeasureSensor` returns, the distance used is the chosen one
      when it is in range and 5 cm in every other case. */
  lemma {:induction false} InvalidReadsFull(readings: seq<int>, res: DistanceResult)
    requires |readings| == NodeUltra1.UltraSampleRetries
    requires var chosen := NodeUltra1.ChooseDistance(readings);
      && (res.valid <==> NodeUltra1.MinValidCm <= chosen <= NodeUltra1.MaxValidCm)
      && (res.valid ==> res.valueCm == chosen)
    ensures var chosen := NodeUltra1.ChooseDistance(readings);
      UsedDistance(res) == if NodeUltra1.MinValidCm <= chosen <= NodeUltra1.MaxValidCm then chosen
                           else NodeUltra1.MinValidCm
    ensures NodeUltra1.ChooseDistance(readings) > NodeUltra1.MaxValidCm ==>
              LevelCalculator.Compute(UsedDistance(res), TankModel) == LevelCalculator.Result(450, 100, 245000)
    ensures NodeUltra1.ChooseDistance(readings) > NodeUltra1.MaxValidCm ==>
              NodeUltra1.RangeClamp(NodeUltra1.ChooseDistance(readings)) == NodeUltra1.MaxValidCm
  {
    if NodeUltra1.ChooseDistance(readings) > NodeUltra1.MaxValidCm {
      LevelCalculator.ComputeFull(NodeUltra1.MinValidCm, TankModel);
    }
  }

  /** `compute_values`: the distance and the voltage as given, level, percentage and
      volume from `compute` on the 450 cm / 20 cm / 245000 L tank. */
  function ComputeValues(distanceCm: int, vinMv: int): (v: TelemetryValues)
    ensures v.distanceCm == distanceCm && v.vinMv == vinMv
    ensures 0 <= v.levelCm <= 450 && 0 <= v.percentual <= 100 && 0 <= v.volumeL <= 245000
    ensures v.levelCm == LevelCalculator.Compute(distanceCm, TankModel).levelCm
    ensures v.percentual == LevelCalculator.Compute(distanceCm, TankModel).percentual
    ensures v.volumeL == LevelCalculator.Compute(distanceCm, TankModel).volumeL
  {
    var r := LevelCalculator.Compute(distanceCm, TankModel);
    TelemetryValues(distanceCm, r.levelCm, r.percentual, r.volumeL, vinMv)
  }

  /** A value-initialised packet of node 2 with the narrowing casts of the loop. */
  function Ultra2Packet(mac: Mac, seqNum: uint32, t: TelemetryValues): (p: TelemetryPacket.SensorPacketV1)
    ensures p.version == TelemetryPacket.SensorPacketVersion && p.nodeId == NodeId && p.mac == mac
    ensures p.seqNum == seqNum && p.flags == 0 && p.alertType == TelemetryPacket.AlertNone
    ensures p.rssi == 0 && p.tsMs == 0
  {
    TelemetryPacket.SensorPacketV1(
      TelemetryPacket.SensorPacketVersion, NodeId, mac, seqNum,
      ToInt16(t.distanceCm), ToInt16(t.levelCm), Wrap8(t.percentual), Wrap32(t.volumeL),
      ToInt16(t.vinMv), 0, TelemetryPacket.AlertNone, 0, 0)
  }

  /** For the distances the loop passes and a voltage below 32768 mV the casts lose
      nothing. */
  lemma Ultra2PacketFaithful(mac: Mac, seqNum: uint32, distanceCm: int, vinMv: int)
    requires NodeUltra1.MinValidCm <= distanceCm <= NodeUltra1.MaxValidCm && 0 <= vinMv < 0x8000
    ensures var p := Ultra2Packet(mac, seqNum, ComputeValues(distanceCm, vinMv));
      var r := LevelCalculator.Compute(distanceCm, TankModel);
      && p.distanceCm as int == distanceCm && p.vinMv as int == vinMv
      && p.levelCm as int == r.levelCm && p.percentual as int == r.percentual && p.volumeL as int == r.volumeL
  {
  }

  /** The value `nvs_get_seq` leaves in `seq`: the stored number, or 0 when there is none. */
  function StoredSeq(nvs: map<string, uint32>): (s: uint32)
    ensures NodeUltra1.SeqKey in nvs ==> s == nvs[NodeUltra1.SeqKey]
    ensures NodeUltra1.SeqKey !in nvs ==> s == 0
  {
    if NodeUltra1.SeqKey in nvs then nvs[NodeUltra1.SeqKey] else 0
  }

  /** The NVS namespace and the LED driver. */
  class Ultra2Node {
    var nvs: map<string, uint32>
    const led: NodeUltra1.LedPattern

    /** The state after the static initialisers and the boot-time
        `led_pattern_searching()`; `createOk` is what `esp_timer_create` returns. */
    constructor (nvs0: map<string, uint32>, createOk: bool)
      ensures nvs == nvs0 && fresh(led)
      ensures led.Value() == NodeUltra1.Searching(NodeUltra1.LedState(0, 0, 0, false, false, false, false, None),
                                                  createOk)
    {
      nvs := nvs0;
      led := new NodeUltra1.LedPattern();
      new;
      led.LedPatternStart(3, 150, 150, createOk);
    }

    /** One sensor's half of the loop: measure, compute, build, send, blink, persist.
        The number is persisted whatever the send returned. */
    method SendSensor(echoes: seq<Ultrasonic.Echo>, mac: Mac, seqNum: uint32, vinMv: int, sendOk: seq<bool>, createOk: bool)
      returns (res: DistanceResult, pkt: TelemetryPacket.SensorPacketV1, ok: bool)
      requires |echoes| == NodeUltra1.UltraSampleRetries
      modifies this, led
      ensures res.validSamples + NodeUltra1.Timeouts(Ultrasonic.Readings(echoes)) == NodeUltra1.UltraSampleRetries
      ensures var chosen := NodeUltra1.ChooseDistance(Ultrasonic.Readings(echoes));
        && (res.valid <==> NodeUltra1.MinValidCm <= chosen <= NodeUltra1.MaxValidCm)
        && (res.valid ==> res.valueCm == chosen)
      ensures pkt == Ultra2Packet(mac, seqNum, ComputeValues(UsedDistance(res), vinMv))
      ensures pkt == Ultra2Packet(mac, seqNum, ComputeValues(ReportedDistance(Ultrasonic.Readings(echoes)), vinMv))
      ensures ok <==> SendResult(sendOk, 0) || SendResult(sendOk, 1)
      ensures nvs == old(nvs)[NodeUltra1.SeqKey := seqNum]
      ensures led.Value() == NodeUltra1.ShowResult(old(led.Value()), ok, createOk)
    {
      res := MeasureSensor(echoes);
      InvalidReadsFull(Ultrasonic.Readings(echoes), res);
      var dist := if res.valid then res.valueCm else NodeUltra1.MinValidCm;
      var t := ComputeValues(dist, vinMv);
      pkt := Ultra2Packet(mac, seqNum, t);
      var calls, delays;
      ok, calls, delays := NodeUltra1.EspnowSendPayload(sendOk);
      NodeUltra1.SendSucceedsIffOneTryDoes(sendOk, ok, calls);
      if ok {
        led.LedPatternStart(3, 80, 80, createOk);
      } else {
        led.LedPatternStart(6, 70, 70, createOk);
      }
      nvs := nvs[NodeUltra1.SeqKey := seqNum];
    }

    /** One turn of the main loop. Sensor A reports under the station MAC with the
        stored number plus one, sensor B under `SensorBMac` with the stored number plus
        two and the same voltage reading; each number is persisted after its own send,
        whether or not that send succeeded, so the cycle always advances the stored
        number by two. */
    method Cycle(echoesA: seq<Ultrasonic.Echo>, echoesB: seq<Ultrasonic.Echo>, vin: AdcSample, devMac: Mac,
                 sendOkA: seq<bool>, sendOkB: seq<bool>, createOk: bool)
      returns (pktA: TelemetryPacket.SensorPacketV1, okA: bool, pktB: TelemetryPacket.SensorPacketV1, okB: bool)
      requires |echoesA| == NodeUltra1.UltraSampleRetries && |echoesB| == NodeUltra1.UltraSampleRetries
      modifies this, led
      ensures pktA == Ultra2Packet(devMac, Wrap32(StoredSeq(old(nvs)) as int + 1),
                                   ComputeValues(ReportedDistance(Ultrasonic.Readings(echoesA)),
                                                 NodeUltra1.VinOrZero(NodeUltra1.ReadVinMv(vin))))
      ensures pktB == Ultra2Packet(SensorBMac, Wrap32(StoredSeq(old(nvs)) as int + 2),
                                   ComputeValues(ReportedDistance(Ultrasonic.Readings(echoesB)),
                                                 NodeUltra1.VinOrZero(NodeUltra1.ReadVinMv(vin))))
      ensures pktA.nodeId == NodeId && pktB.nodeId == NodeId
      ensures pktA.mac == devMac && pktB.mac == SensorBMac
      ensures pktA.seqNum == Wrap32(StoredSeq(old(nvs)) as int + 1)
      ensures pktB.seqNum == Wrap32(StoredSeq(old(nvs)) as int + 2)
      ensures pktA.vinMv == pktB.vinMv == ToInt16(NodeUltra1.VinOrZero(NodeUltra1.ReadVinMv(vin)))
      ensures nvs == old(nvs)[NodeUltra1.SeqKey := Wrap32(StoredSeq(old(nvs)) as int + 2)]
      ensures okA <==> SendResult(sendOkA, 0) || SendResult(sendOkA, 1)
      ensures okB <==> SendResult(sendOkB, 0) || SendResult(sendOkB, 1)
      ensures led.Value() == NodeUltra1.ShowResult(NodeUltra1.ShowResult(old(led.Value()), okA, createOk), okB, createOk)
    {
      var stored := StoredSeq(nvs);
      var vinMv := NodeUltra1.VinOrZero(NodeUltra1.ReadVinMv(vin));
      var seqA := Wrap32(stored as int + 1);
      var resA;
      resA, pktA, okA := SendSensor(echoesA, devMac, seqA, vinMv, sendOkA, createOk);
      var seqB := Wrap32(seqA as int + 1);
      Wrap32Succ(stored as int + 1);
      var resB;
      resB, pktB, okB := SendSensor(echoesB, SensorBMac, seqB, vinMv, sendOkB, createOk);
    }
  }
}

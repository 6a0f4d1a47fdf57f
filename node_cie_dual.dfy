/** The dual-reservoir node (node_cie_dual.cpp): two ultrasonic sensors read through a
    filter, per-sensor anomaly detection, and delivery to up to three gateways with an
    acknowledgement that must echo the node id and sequence number. */
module NodeCieDual {
  import opened Bytes
  import opened Wrappers
  import opened Hardware
  import LevelCalculator
  import Ultrasonic
  import TelemetryPacket

  const LevelMaxCm: int := 450
  const SensorOffsetCm: int := 20
  const VolMaxL: int := 80000
  const TankModel: LevelCalculator.Model := LevelCalculator.Model(LevelMaxCm, SensorOffsetCm, VolMaxL)

  const SampleIntervalS: int := 30
  const UltraSampleRetries: nat := 3
  const EspnowSendRetries: nat := 2
  const MinValidCm: int := 5
  const MaxValidCm: int := 450
  const RapidChangeThresholdCm: int := 50
  const NoChangeMinutes: int := 120
  const NoChangeThresholdCm: int := 2
  const MaxGateways: nat := 3
  /** The acknowledgement wait: 500 ms polled every 10 ms. */
  const AckWaitPolls: nat := 50

  const NodeId1: uint8 := 4
  const NodeId2: uint8 := 5
  const SeqKey1: string := "seq1"
  const SeqKey2: string := "seq2"
  const LastGwKey: string := "last_gw"

  /** The gateway table: only the first entry is a real station; all-0xFF marks a slot
      that is not configured. */
  const Unconfigured: Mac := [0xFF, 0xFF, 0xFF, 0xFF, 0xFF, 0xFF]
  const GatewayMacs: seq<Mac> := [[0x80, 0xf3, 0xda, 0x62, 0xa7, 0x84], Unconfigured, Unconfigured]

  function Abs(x: int): (r: nat)
    ensures r == x || r == -x
  {
    if x < 0 then -x else x
  }

  // ---------------------------------------------------------------------
  // Anomaly detection

  /** The value of a `SensorState`. */
  datatype Anomaly = Anomaly(lastLevelCm: int16, lastChangeSeq: uint32, initialized: bool)

  /** What `detect_anomalies` produces: the new state and the two out-parameters. */
  datatype Detection = Detection(next: Anomaly, flags: uint8, alertType: uint8)

  /** `minutes_since_change`: the reading count is a `uint32_t` difference and its
      product with the 30 s interval is formed in `uint32_t` as well. */
  function MinutesSinceChange(s: Anomaly, seqNum: uint32): (r: uint32)
    ensures s.lastChangeSeq <= seqNum && (seqNum - s.lastChangeSeq) as int * SampleIntervalS < TWO32
            ==> r as int == (seqNum - s.lastChangeSeq) as int / 2
  {
    var readings := Wrap32(seqNum as int - s.lastChangeSeq as int);
    (Wrap32(readings as int * SampleIntervalS) as int / 60) as uint32
  }

  /** `detect_anomalies`. The level difference is stored in an `int16_t`. What each
      outcome means is proved in `DetectFirstReading` (an uninitialised state) and
      `DetectClassifies` (rapid drop, rapid rise and stuck, as if-and-only-ifs). */
  function Detect(s: Anomaly, levelCm: int, seqNum: uint32): (d: Detection)
    ensures d.next.initialized
    ensures d.flags == (if d.alertType == TelemetryPacket.AlertNone then 0 else TelemetryPacket.FlagIsAlert)
    ensures d.alertType in {TelemetryPacket.AlertNone, TelemetryPacket.AlertRapidDrop,
                            TelemetryPacket.AlertRapidRise, TelemetryPacket.AlertSensorStuck}
    ensures d.next == s || d.next == Anomaly(ToInt16(levelCm), seqNum, true)
  {
    if !s.initialized then
      Detection(Anomaly(ToInt16(levelCm), seqNum, true), 0, TelemetryPacket.AlertNone)
    else
      var delta := ToInt16(levelCm - s.lastLevelCm as int) as int;
      var minutes := MinutesSinceChange(s, seqNum) as int;
      var alert :=
        if delta <= -RapidChangeThresholdCm then TelemetryPacket.AlertRapidDrop
        else if delta >= RapidChangeThresholdCm then TelemetryPacket.AlertRapidRise
        else if minutes >= NoChangeMinutes && Abs(delta) <= NoChangeThresholdCm then TelemetryPacket.AlertSensorStuck
        else TelemetryPacket.AlertNone;
      var flags := if alert == TelemetryPacket.AlertNone then 0 else TelemetryPacket.FlagIsAlert;
      var next := if Abs(delta) > NoChangeThresholdCm then Anomaly(ToInt16(levelCm), seqNum, true) else s;
      Detection(next, flags, alert)
  }

  /** The first reading only sets the baseline and never raises an alert. */
  lemma DetectFirstReading(s: Anomaly, levelCm: int, seqNum: uint32)
    requires !s.initialized && 0 <= levelCm <= LevelMaxCm
    ensures Detect(s, levelCm, seqNum) == Detection(Anomaly(levelCm as int16, seqNum, true), 0, 0)
  {
  }

  /** Once initialised, the alert depends on the level change in this order: a drop of
      50 cm or more, a rise of 50 cm or more, then two hours of changes within 2 cm;
      the baseline moves exactly when the change exceeds 2 cm. */
  lemma DetectClassifies(s: Anomaly, levelCm: int, seqNum: uint32)
    requires s.initialized
    requires 0 <= levelCm <= LevelMaxCm && 0 <= s.lastLevelCm as int <= LevelMaxCm
    ensures var d := Detect(s, levelCm, seqNum);
      var delta := levelCm - s.lastLevelCm as int;
      var minutes := MinutesSinceChange(s, seqNum) as int;
      && (d.alertType == TelemetryPacket.AlertRapidDrop <==> delta <= -50)
      && (d.alertType == TelemetryPacket.AlertRapidRise <==> delta >= 50)
      && (d.alertType == TelemetryPacket.AlertSensorStuck <==> minutes >= 120 && Abs(delta) <= 2)
      && (d.alertType == TelemetryPacket.AlertNone <==> -50 < delta < 50 && !(minutes >= 120 && Abs(delta) <= 2))
      && (d.next == (if Abs(delta) > 2 then Anomaly(levelCm as int16, seqNum, true) else s))
  {
  }

  /** While the level stays within 2 cm of the baseline, the stuck alert fires once 240
      readings (two hours at one reading per 30 s) have passed since the last change. */
  lemma StuckAfterTwoHours(s: Anomaly, levelCm: int, seqNum: uint32)
    requires s.initialized && s.lastChangeSeq <= seqNum && (seqNum - s.lastChangeSeq) as int < TWO32 / 30
    requires 0 <= levelCm <= LevelMaxCm && 0 <= s.lastLevelCm as int <= LevelMaxCm
    requires Abs(levelCm - s.lastLevelCm as int) <= NoChangeThresholdCm
    ensures Detect(s, levelCm, seqNum).alertType == TelemetryPacket.AlertSensorStuck
            <==> seqNum as int - s.lastChangeSeq as int >= 240
    ensures Detect(s, levelCm, seqNum).next == s
  {
    DetectClassifies(s, levelCm, seqNum);
  }

  /** `SensorState`, updated in place by `detect_anomalies`. */
  class SensorState {
    var lastLevelCm: int16
    var lastChangeSeq: uint32
    var initialized: bool

    constructor ()
      ensures Value() == Anomaly(0, 0, false)
    {
      lastLevelCm := 0;
      lastChangeSeq := 0;
      initialized := false;
    }

    function Value(): Anomaly
      reads this
    {
      Anomaly(lastLevelCm, lastChangeSeq, initialized)
    }

    method DetectAnomalies(levelCm: int, seqNum: uint32) returns (flags: uint8, alertType: uint8)
      modifies this
      ensures Value() == Detect(old(Value()), levelCm, seqNum).next
      ensures flags == Detect(old(Value()), levelCm, seqNum).flags
      ensures alertType == Detect(old(Value()), levelCm, seqNum).alertType
    {
      flags := 0;
      alertType := TelemetryPacket.AlertNone;
      if !initialized {
        lastLevelCm := ToInt16(levelCm);
        lastChangeSeq := seqNum;
        initialized := true;
        return;
      }
      var deltaCm := ToInt16(levelCm - lastLevelCm as int);
      var readingsSinceChange := Wrap32(seqNum as int - lastChangeSeq as int);
      var minutesSinceChange := Wrap32(readingsSinceChange as int * SampleIntervalS) / 60;
      if deltaCm as int <= -RapidChangeThresholdCm {
        flags := TelemetryPacket.FlagIsAlert;
        alertType := TelemetryPacket.AlertRapidDrop;
      } else if deltaCm as int >= RapidChangeThresholdCm {
        flags := TelemetryPacket.FlagIsAlert;
        alertType := TelemetryPacket.AlertRapidRise;
      } else if minutesSinceChange as int >= NoChangeMinutes && Abs(deltaCm as int) <= NoChangeThresholdCm {
        flags := TelemetryPacket.FlagIsAlert;
        alertType := TelemetryPacket.AlertSensorStuck;
      }
      if Abs(deltaCm as int) > NoChangeThresholdCm {
        lastLevelCm := ToInt16(levelCm);
        lastChangeSeq := seqNum;
      }
    }
  }

  // ---------------------------------------------------------------------
  // Persistent settings

  /** `nvs_get_seq`: a missing key leaves the default in place. */
  function StoredSeq(nvs: map<string, uint32>, key: string, default: uint32): (r: uint32)
    ensures key in nvs ==> r == nvs[key]
    ensures key !in nvs ==> r == default
  {
    if key in nvs then nvs[key] else default
  }

  /** `nvs_get_last_gateway`: a missing key reads 0, and so does an index out of range. */
  function LastGateway(nvs: map<string, uint8>): (r: int)
    ensures 0 <= r < MaxGateways
    ensures LastGwKey in nvs && nvs[LastGwKey] as int < MaxGateways ==> r == nvs[LastGwKey] as int
    ensures LastGwKey !in nvs || nvs[LastGwKey] as int >= MaxGateways ==> r == 0
  {
    if LastGwKey in nvs && nvs[LastGwKey] as int < MaxGateways then nvs[LastGwKey] as int else 0
  }

  /** `nvs_set_last_gateway`: an index out of range is not written. */
  function SetLastGateway(nvs: map<string, uint8>, gwIdx: int): (r: map<string, uint8>)
    ensures 0 <= gwIdx < MaxGateways ==> r == nvs[LastGwKey := gwIdx as uint8]
    ensures !(0 <= gwIdx < MaxGateways) ==> r == nvs
  {
    if 0 <= gwIdx < MaxGateways then nvs[LastGwKey := gwIdx as uint8] else nvs
  }

  /** Reading back what was written gives the index written, if it was in range, and
      the previous preference otherwise. */
  lemma LastGatewayRoundTrip(nvs: map<string, uint8>, gwIdx: int)
    ensures LastGateway(SetLastGateway(nvs, gwIdx)) == (if 0 <= gwIdx < MaxGateways then gwIdx else LastGateway(nvs))
  {
  }

  // ---------------------------------------------------------------------
  // Gateway selection

  /** The indices below `n` other than `pref`, ascending. */
  function Others(pref: int, n: nat): (r: seq<int>)
    ensures |r| <= n
    ensures forall j :: 0 <= j < |r| ==> 0 <= r[j] < n
    ensures 0 <= pref < n ==> |r| == n - 1
    ensures !(0 <= pref < n) ==> |r| == n
  {
    if n == 0 then [] else Others(pref, n - 1) + (if n - 1 != pref then [n - 1] else [])
  }

  /** `gw_order`: the preferred gateway, then the others in ascending order. */
  function GwOrder(pref: int): (r: seq<int>)
    requires 0 <= pref < MaxGateways
    ensures |r| == MaxGateways && r[0] == pref
    ensures forall j :: 0 <= j < |r| ==> 0 <= r[j] < MaxGateways
  {
    [pref] + Others(pref, MaxGateways)
  }

  /** The three orders the node can use. */
  lemma GwOrderValues(pref: int)
    requires 0 <= pref < MaxGateways
    ensures pref == 0 ==> GwOrder(pref) == [0, 1, 2]
    ensures pref == 1 ==> GwOrder(pref) == [1, 0, 2]
    ensures pref == 2 ==> GwOrder(pref) == [2, 0, 1]
  {
    assert Others(pref, 1) == (if pref == 0 then [] else [0]);
    assert Others(pref, 2) == Others(pref, 1) + (if pref == 1 then [] else [1]);
    assert Others(pref, 3) == Others(pref, 2) + (if pref == 2 then [] else [2]);
  }

  /** The order is a permutation of the three gateway indices: no gateway twice, the
      preferred one first, the other two ascending. */
  lemma GwOrderPermutation(pref: int)
    requires 0 <= pref < MaxGateways
    ensures forall x :: x in GwOrder(pref) <==> 0 <= x < MaxGateways
    ensures forall j, k :: 0 <= j < k < MaxGateways ==> GwOrder(pref)[j] != GwOrder(pref)[k]
    ensures GwOrder(pref)[1] < GwOrder(pref)[2]
  {
    GwOrderValues(pref);
    var o := GwOrder(pref);
    if pref == 0 {
      assert o == [0] + [1] + [2];
    } else if pref == 1 {
      assert o == [1] + [0] + [2];
    } else {
      assert o == [2] + [0] + [1];
    }
  }

  /** A slot is configured when some byte of its address differs from 0xFF. */
  predicate Configured(mac: Mac) {
    mac != Unconfigured
  }

  /** The configured check as a single-entry pass. */
  function Pick(x: int, macs: seq<Mac>): seq<int>
  {
    if 0 <= x < |macs| && Configured(macs[x]) then [x] else []
  }

  /** One pass of the inner loop: the gateways of `order` that are configured, in order. */
  function Round(order: seq<int>, macs: seq<Mac>): (r: seq<int>)
    ensures |r| <= |order|
  {
    if |order| == 0 then []
    else
      var last := order[|order| - 1];
      Round(order[..|order| - 1], macs) + Pick(last, macs)
  }

  /** Extending the scanned part of the order by one entry extends the pass by that
      entry's pick. */
  lemma RoundStep(order: seq<int>, g: nat, macs: seq<Mac>)
    requires g < |order|
    ensures Round(order[..g + 1], macs) == Round(order[..g], macs) + Pick(order[g], macs)
  {
    assert order[..g + 1][..g] == order[..g];
  }

  /** A pass only ever addresses configured slots of the table. */
  lemma {:induction false} RoundMembers(order: seq<int>, macs: seq<Mac>)
    ensures forall j :: 0 <= j < |Round(order, macs)| ==>
              0 <= Round(order, macs)[j] < |macs| && Configured(macs[Round(order, macs)[j]])
  {
    if |order| > 0 {
      RoundMembers(order[..|order| - 1], macs);
    }
  }

  function Repeat(r: seq<int>, n: nat): (s: seq<int>)
  {
    if n == 0 then [] else Repeat(r, n - 1) + r
  }

  /** Every gateway address `espnow_send_payload` may hand to the radio, in order: two
      passes over the configured gateways. */
  function Schedule(pref: int, macs: seq<Mac>): (r: seq<int>)
    requires 0 <= pref < MaxGateways && |macs| == MaxGateways
  {
    Repeat(Round(GwOrder(pref), macs), EspnowSendRetries)
  }

  function ConfiguredCount(macs: seq<Mac>): (n: nat)
    requires |macs| == MaxGateways
    ensures n <= MaxGateways
  {
    (if Configured(macs[0]) then 1 else 0) + (if Configured(macs[1]) then 1 else 0)
    + (if Configured(macs[2]) then 1 else 0)
  }

  /** A pass over a three-entry order, unfolded. */
  lemma Round3(o: seq<int>, macs: seq<Mac>)
    requires |o| == 3
    ensures Round(o, macs) == Pick(o[0], macs) + Pick(o[1], macs) + Pick(o[2], macs)
  {
    var o2, o1 := o[..2], o[..1];
    assert o2[..1] == o1 && o1[..0] == [];
    assert Round(o, macs) == Round(o2, macs) + Pick(o[2], macs);
    assert Round(o2, macs) == Round(o1, macs) + Pick(o[1], macs);
    assert Round(o1, macs) == Round([], macs) + Pick(o[0], macs);
  }

  /** A pass addresses each configured gateway once, the preferred one first. */
  lemma RoundCount(pref: int, macs: seq<Mac>)
    requires 0 <= pref < MaxGateways && |macs| == MaxGateways
    ensures |Round(GwOrder(pref), macs)| == ConfiguredCount(macs)
    ensures Configured(macs[pref]) ==> Round(GwOrder(pref), macs)[0] == pref
  {
    var o := GwOrder(pref);
    GwOrderValues(pref);
    Round3(o, macs);
    if pref == 0 {
      assert Round(o, macs) == Pick(0, macs) + Pick(1, macs) + Pick(2, macs);
    } else if pref == 1 {
      assert Round(o, macs) == Pick(1, macs) + Pick(0, macs) + Pick(2, macs);
    } else {
      assert Round(o, macs) == Pick(2, macs) + Pick(0, macs) + Pick(1, macs);
    }
  }

  /** A schedule's length does not depend on the preferred gateway. */
  lemma ScheduleLength(pref: int, macs: seq<Mac>)
    requires 0 <= pref < MaxGateways && |macs| == MaxGateways
    ensures |Schedule(pref, macs)| == 2 * ConfiguredCount(macs)
  {
    ScheduleShape(pref, macs);
  }

  lemma ScheduleTwice(pref: int, macs: seq<Mac>)
    requires 0 <= pref < MaxGateways && |macs| == MaxGateways
    ensures Schedule(pref, macs) == Round(GwOrder(pref), macs) + Round(GwOrder(pref), macs)
  {
    var r := Round(GwOrder(pref), macs);
    assert Repeat(r, 1) == r;
  }

  /** A call makes at most two sends per configured gateway, never addresses an
      unconfigured slot, and tries the preferred gateway first when it is configured. */
  lemma ScheduleShape(pref: int, macs: seq<Mac>)
    requires 0 <= pref < MaxGateways && |macs| == MaxGateways
    ensures |Schedule(pref, macs)| == 2 * ConfiguredCount(macs)
    ensures forall j :: 0 <= j < |Schedule(pref, macs)| ==>
              0 <= Schedule(pref, macs)[j] < MaxGateways && Configured(macs[Schedule(pref, macs)[j]])
    ensures Configured(macs[pref]) ==> Schedule(pref, macs)[0] == pref
  {
    var o := GwOrder(pref);
    var r := Round(o, macs);
    ScheduleTwice(pref, macs);
    RoundCount(pref, macs);
    RoundMembers(o, macs);
    var s := r + r;
    assert forall j :: 0 <= j < |s| ==> s[j] == r[if j < |r| then j else j - |r|];
  }

  /** With the shipped gateway table only gateway 0 is ever addressed: whatever index is
      stored, a call sends to it at most twice. */
  lemma ShippedTableSchedule(pref: int)
    requires 0 <= pref < MaxGateways
    ensures Schedule(pref, GatewayMacs) == [0, 0]
  {
    assert Configured(GatewayMacs[0]) by {
      assert GatewayMacs[0][0] != 0xFF;
    }
    assert !Configured(GatewayMacs[1]) && !Configured(GatewayMacs[2]);
    ScheduleShape(pref, GatewayMacs);
    var s := Schedule(pref, GatewayMacs);
    assert |s| == 2;
  }

  // ---------------------------------------------------------------------
  // Acknowledgements

  /** What the receive callback stores: an 11-byte frame whose first two bytes are the
      acknowledgement magic and version, read as an `AckPacket`. */
  function AcceptAck(frame: seq<uint8>): (r: Option<TelemetryPacket.AckPacket>)
    ensures r.Some? <==> |frame| == TelemetryPacket.AckPacketSize
                         && frame[0] == TelemetryPacket.AckMagic && frame[1] == TelemetryPacket.AckVersion
    ensures r.Some? ==> r.value.magic == TelemetryPacket.AckMagic && r.value.version == TelemetryPacket.AckVersion
    ensures r.Some? ==> TelemetryPacket.EncodeAck(r.value) == frame
  {
    if |frame| == TelemetryPacket.AckPacketSize && frame[0] == TelemetryPacket.AckMagic
       && frame[1] == TelemetryPacket.AckVersion
    then
      TelemetryPacket.AckBytesRoundTrip(frame);
      TelemetryPacket.DecodeAck(frame)
    else None
  }

  predicate AckMatches(a: TelemetryPacket.AckPacket, seqNum: uint32, nodeId: uint8) {
    a.ackSeq == seqNum && a.nodeId == nodeId
  }

  /** The second radio oracle (the first is `Hardware.SendResult`): `arrival[k][i]` is
      the frame, if any, delivered to the receive callback before poll `i` of the wait
      after the k-th send. */
  function FrameAt(arrival: seq<seq<Option<seq<uint8>>>>, k: nat, i: nat): Option<seq<uint8>> {
    if k < |arrival| && i < |arrival[k]| then arrival[k][i] else None
  }

  /** The bytes of acknowledgement `a` were delivered during the wait that followed the
      k-th send. */
  ghost predicate AckArrivedDuring(arrival: seq<seq<Option<seq<uint8>>>>, k: nat, a: TelemetryPacket.AckPacket) {
    exists i :: 0 <= i < AckWaitPolls && AckDeliveredAt(arrival, k, i, a)
  }

  /** The bytes of `a` were the frame delivered before poll `i` of the k-th wait. */
  ghost predicate AckDeliveredAt(arrival: seq<seq<Option<seq<uint8>>>>, k: nat, i: nat, a: TelemetryPacket.AckPacket) {
    FrameAt(arrival, k, i) == Some(TelemetryPacket.EncodeAck(a))
  }

  /** The frame delivered before poll `i` of the k-th wait is one the receive callback
      accepts, and it acknowledges `seqNum` for `nodeId`. */
  predicate AckMatchedAt(arrival: seq<seq<Option<seq<uint8>>>>, k: nat, i: nat, seqNum: uint32, nodeId: uint8) {
    && FrameAt(arrival, k, i).Some?
    && AcceptAck(FrameAt(arrival, k, i).value).Some?
    && AckMatches(AcceptAck(FrameAt(arrival, k, i).value).value, seqNum, nodeId)
  }

  /** One of the first `n` polls of the k-th wait is preceded by a matching
      acknowledgement, checked poll by poll as the wait loop does. */
  predicate AckWithinPolls(arrival: seq<seq<Option<seq<uint8>>>>, k: nat, n: nat, seqNum: uint32, nodeId: uint8) {
    n > 0 && (AckWithinPolls(arrival, k, n - 1, seqNum, nodeId) || AckMatchedAt(arrival, k, n - 1, seqNum, nodeId))
  }

  /** Checked poll by poll, a match within `n` polls is a poll among the first `n`
      that is preceded by a matching acknowledgement. */
  lemma {:induction false} AckWithinPollsSome(arrival: seq<seq<Option<seq<uint8>>>>, k: nat, n: nat,
                                              seqNum: uint32, nodeId: uint8)
    ensures AckWithinPolls(arrival, k, n, seqNum, nodeId)
            <==> exists i :: 0 <= i < n && AckMatchedAt(arrival, k, i, seqNum, nodeId)
  {
    if n > 0 {
      AckWithinPollsSome(arrival, k, n - 1, seqNum, nodeId);
      if AckMatchedAt(arrival, k, n - 1, seqNum, nodeId) {
        assert 0 <= n - 1 < n;
      }
    }
  }

  /** Some poll of the k-th wait is preceded by a matching acknowledgement. */
  predicate AckWithinWait(arrival: seq<seq<Option<seq<uint8>>>>, k: nat, seqNum: uint32, nodeId: uint8) {
    AckWithinPolls(arrival, k, AckWaitPolls, seqNum, nodeId)
  }

  /** The k-th send of a call succeeds: `esp_now_send` returns `ESP_OK` and a matching
      acknowledgement arrives during the wait after it. */
  ghost predicate TrySucceeds(seqNum: uint32, nodeId: uint8, k: nat, sendOk: seq<bool>,
                              arrival: seq<seq<Option<seq<uint8>>>>) {
    SendResult(sendOk, k) && AckWithinWait(arrival, k, seqNum, nodeId)
  }

  /** One of the first `n` sends of a call succeeds. */
  ghost predicate SomeTrySucceeds(seqNum: uint32, nodeId: uint8, n: nat, sendOk: seq<bool>,
                                  arrival: seq<seq<Option<seq<uint8>>>>) {
    exists j :: 0 <= j < n && TrySucceeds(seqNum, nodeId, j, sendOk, arrival)
  }

  /** A failed send extends a run of failed sends by one. */
  lemma NoTrySucceedsExtend(seqNum: uint32, nodeId: uint8, lo: nat, k: nat, sendOk: seq<bool>,
                            arrival: seq<seq<Option<seq<uint8>>>>)
    requires forall j :: lo <= j < k ==> !TrySucceeds(seqNum, nodeId, j, sendOk, arrival)
    requires !TrySucceeds(seqNum, nodeId, k, sendOk, arrival)
    ensures forall j :: lo <= j < k + 1 ==> !TrySucceeds(seqNum, nodeId, j, sendOk, arrival)
  { }

  /** `1 << n`, the backoff factor. */
  function Pow2(n: nat): (r: nat)
    ensures r >= 1
  {
    if n == 0 then 1 else 2 * Pow2(n - 1)
  }

  /** The factor starts at 1 and doubles with each attempt, as a left shift of 1 does;
      the two attempts of a call back off for 100 and 200 ms. */
  lemma Pow2Doubles(n: nat)
    ensures Pow2(0) == 1 && Pow2(n + 1) == 2 * Pow2(n)
    ensures 100 * Pow2(0) == 100 && 100 * Pow2(1) == 200
  {
  }

  // ---------------------------------------------------------------------
  // Sensing

  /** The filter is outside the model: `estimates[k]` is the integer estimate it reports
      after its (k+1)-th accepted reading. The raw readings come from `measure_cm`. */
  function CountValid(raw: seq<int>): (n: nat)
    ensures n <= |raw|
    ensures n == 0 <==> forall j :: 0 <= j < |raw| ==> !(MinValidCm <= raw[j] <= MaxValidCm)
  {
    if |raw| == 0 then 0
    else CountValid(raw[..|raw| - 1]) + (if MinValidCm <= raw[|raw| - 1] <= MaxValidCm then 1 else 0)
  }

  /** The distance the node reports: -1 when no reading was in range, otherwise the
      filter's last estimate clamped to [5, 450]. The clamp is guarded by `distance_cm >= 0`,
      so a negative estimate would pass through unchanged and be reported as a failure. */
  function CieDistance(raw: seq<int>, estimates: seq<int>): (d: int)
    requires |estimates| >= |raw|
    ensures CountValid(raw) == 0 ==> d == -1
    ensures CountValid(raw) > 0 && estimates[CountValid(raw) - 1] >= 0 ==> MinValidCm <= d <= MaxValidCm
    ensures CountValid(raw) > 0 ==>
              var estimate := estimates[CountValid(raw) - 1];
              && (MinValidCm <= estimate <= MaxValidCm ==> d == estimate)
              && (0 <= estimate < MinValidCm ==> d == MinValidCm)
              && (estimate > MaxValidCm ==> d == MaxValidCm)
    ensures CountValid(raw) > 0 && estimates[CountValid(raw) - 1] < 0 ==> d == estimates[CountValid(raw) - 1]
  {
    var valid := CountValid(raw);
    if valid == 0 then -1
    else
      var estimate := estimates[valid - 1];
      if estimate >= 0 then LevelCalculator.Clamp(estimate, MinValidCm, MaxValidCm) else estimate
  }

  /** `read_vin_mv` of this node: the calibrated voltage when a scheme exists, otherwise
      the raw count, doubled for the divider; -1 when the read fails. */
  function ReadVinMv(a: AdcSample): (mv: int)
    ensures !a.readOk ==> mv == -1
    ensures a.readOk && a.calibratedMv.Some? ==> mv == 2 * a.calibratedMv.value
    ensures a.readOk && a.calibratedMv.None? ==> mv == 2 * a.raw
  {
    if !a.readOk then -1
    else if a.calibratedMv.Some? then a.calibratedMv.value * 2
    else a.raw * 2
  }

  /** The packet of one sensor: level figures only for a valid distance, and the
      failure marker (alert flag, sensor-stuck code) otherwise. */
  function CiePacket(nodeId: uint8, mac: Mac, seqNum: uint32, distanceCm: int, vinMv: int,
                     s: Anomaly): (p: TelemetryPacket.SensorPacketV1)
    ensures p.version == TelemetryPacket.SensorPacketVersion && p.nodeId == nodeId && p.mac == mac
    ensures p.seqNum == seqNum && p.rssi == 0 && p.tsMs == 0
    ensures distanceCm < 0 ==> p.levelCm == 0 && p.percentual == 0 && p.volumeL == 0
                               && p.flags == TelemetryPacket.FlagIsAlert
                               && p.alertType == TelemetryPacket.AlertSensorStuck
  {
    var r := if distanceCm >= 0 then LevelCalculator.Compute(distanceCm, TankModel)
             else LevelCalculator.Result(0, 0, 0);
    var det := if distanceCm >= 0 then Detect(s, r.levelCm, seqNum)
               else Detection(s, TelemetryPacket.FlagIsAlert, TelemetryPacket.AlertSensorStuck);
    TelemetryPacket.SensorPacketV1(
      TelemetryPacket.SensorPacketVersion, nodeId, mac, seqNum,
      ToInt16(distanceCm), ToInt16(r.levelCm), Wrap8(r.percentual), Wrap32(r.volumeL),
      ToInt16(if vinMv < 0 then 0 else vinMv), det.flags, det.alertType, 0, 0)
  }

  /** For every distance the node can report, the narrowing casts into the packet lose
      nothing: the packet carries exactly the distance and `compute`'s figures. */
  lemma CiePacketFaithful(nodeId: uint8, mac: Mac, seqNum: uint32, distanceCm: int, vinMv: int, s: Anomaly)
    requires distanceCm == -1 || MinValidCm <= distanceCm <= MaxValidCm
    requires vinMv < 0x8000
    ensures var p := CiePacket(nodeId, mac, seqNum, distanceCm, vinMv, s);
      var r := LevelCalculator.Compute(distanceCm, TankModel);
      && p.distanceCm as int == distanceCm
      && p.vinMv as int == (if vinMv < 0 then 0 else vinMv)
      && (distanceCm >= 0 ==> p.levelCm as int == r.levelCm && p.percentual as int == r.percentual
                              && p.volumeL as int == r.volumeL
                              && p.flags == Detect(s, r.levelCm, seqNum).flags
                              && p.alertType == Detect(s, r.levelCm, seqNum).alertType)
  {
    LevelCalculator.FirmwareArithmeticFits(distanceCm, TankModel);
  }

  /** The detector state after a cycle that measured `distanceCm`: a failed
      measurement leaves it untouched, a valid one runs `detect_anomalies` on its level. */
  function NextAnomaly(s: Anomaly, distanceCm: int, seqNum: uint32): (r: Anomaly)
    ensures distanceCm < 0 ==> r == s
    ensures distanceCm >= 0 ==> r.initialized && (r == s || r.lastChangeSeq == seqNum)
  {
    if distanceCm < 0 then s else Detect(s, LevelCalculator.Compute(distanceCm, TankModel).levelCm, seqNum).next
  }

  /** The sequence number a cycle uses: the stored one plus one (from 0 when nothing is
      stored), in `uint32_t`. */
  function NextSeq(nvs: map<string, uint32>, key: string): (r: uint32)
    ensures key !in nvs ==> r == 1
    ensures key in nvs && nvs[key] as int < TWO32 - 1 ==> r as int == nvs[key] as int + 1
  {
    Wrap32(StoredSeq(nvs, key, 0) as int + 1)
  }

  /** Only a delivered packet advances the stored number: after a failure the next
      cycle sends the same number again. */
  lemma SeqAdvancesOnlyOnSuccess(nvs: map<string, uint32>, key: string, other: string)
    requires other != key
    ensures NextSeq(nvs[key := NextSeq(nvs, key)], key) == Wrap32(NextSeq(nvs, key) as int + 1)
    ensures NextSeq(nvs[key := NextSeq(nvs, key)], other) == NextSeq(nvs, other)
  {
  }

  // ---------------------------------------------------------------------
  // The node

  /** The mailbox the receive callback shares with the sender: `ack_received` and
      `last_ack`. */
  class AckSlot {
    var ackReceived: bool
    var lastAck: TelemetryPacket.AckPacket

    /** An acknowledgement is only recorded after the callback checked it. */
    ghost predicate Valid()
      reads this
    {
      ackReceived ==> lastAck.magic == TelemetryPacket.AckMagic && lastAck.version == TelemetryPacket.AckVersion
    }

    constructor ()
      ensures Valid() && !ackReceived
    {
      ackReceived := false;
      lastAck := TelemetryPacket.AckPacket(0, 0, 0, 0, 0, 0, 0, 0);
    }

    /** `espnow_recv_cb`. */
    method RecvCb(frame: seq<uint8>)
      requires Valid()
      modifies this
      ensures Valid()
      ensures AcceptAck(frame).Some? ==> lastAck == AcceptAck(frame).value && ackReceived
      ensures AcceptAck(frame).None? ==> lastAck == old(lastAck) && ackReceived == old(ackReceived)
    {
      if |frame| == TelemetryPacket.AckPacketSize {
        var ack := TelemetryPacket.DecodeAck(frame).value;
        if ack.magic == TelemetryPacket.AckMagic && ack.version == TelemetryPacket.AckVersion {
          lastAck := ack;
          ackReceived := true;
        }
      }
    }

    /** The wait after a successful `esp_now_send`: up to 50 polls, each preceded by the
        frame (if any) the radio hands to the receive callback in the pause before it.
        The flag was cleared before the send, so a match is always an acknowledgement
        that arrived during this wait; `at` is the poll it arrived before. */
    method WaitForAck(seqNum: uint32, nodeId: uint8, k: nat, arrival: seq<seq<Option<seq<uint8>>>>)
      returns (matched: bool, ghost at: nat)
      requires Valid() && !ackReceived
      modifies this
      ensures Valid()
      ensures matched ==> ackReceived && AckMatches(lastAck, seqNum, nodeId)
      ensures matched ==> at < AckWaitPolls && AckDeliveredAt(arrival, k, at, lastAck)
      ensures matched <==> AckWithinWait(arrival, k, seqNum, nodeId)
      ensures matched ==> && AckMatchedAt(arrival, k, at, seqNum, nodeId)
                          && forall q :: 0 <= q < at ==> !AckMatchedAt(arrival, k, q, seqNum, nodeId)
    {
      at := 0;
      var poll := 0;
      while poll < AckWaitPolls
        invariant 0 <= poll <= AckWaitPolls
        invariant Valid()
        invariant ackReceived ==> && at < poll && FrameAt(arrival, k, at).Some?
                                  && AcceptAck(FrameAt(arrival, k, at).value) == Some(lastAck)
        invariant forall q :: 0 <= q < poll ==> !AckMatchedAt(arrival, k, q, seqNum, nodeId)
      {
        var frame := FrameAt(arrival, k, poll);
        if frame.Some? {
          RecvCb(frame.value);
          if AcceptAck(frame.value).Some? {
            at := poll;
          }
        }
        if ackReceived && lastAck.ackSeq == seqNum && lastAck.nodeId == nodeId {
          assert AckMatchedAt(arrival, k, at, seqNum, nodeId);
          AckWithinPollsSome(arrival, k, AckWaitPolls, seqNum, nodeId);
          return true, at;
        }
        poll := poll + 1;
      }
      AckWithinPollsSome(arrival, k, AckWaitPolls, seqNum, nodeId);
      return false, at;
    }

    /** One try at one gateway, as the `k`-th send of the call: clear the flag, send, and
        wait for the acknowledgement when the send itself succeeded. */
    method SendAndWait(seqNum: uint32, nodeId: uint8, k: nat, sendOk: seq<bool>,
                       arrival: seq<seq<Option<seq<uint8>>>>)
      returns (matched: bool, ghost at: nat)
      requires Valid()
      modifies this
      ensures Valid()
      ensures matched ==> && SendResult(sendOk, k) && ackReceived && AckMatches(lastAck, seqNum, nodeId)
                          && at < AckWaitPolls && AckDeliveredAt(arrival, k, at, lastAck)
      ensures matched <==> TrySucceeds(seqNum, nodeId, k, sendOk, arrival)
    {
      ackReceived := false;
      matched, at := false, 0;
      if SendResult(sendOk, k) {
        matched, at := WaitForAck(seqNum, nodeId, k, arrival);
      }
    }
  }

  /** The node's globals: the NVS namespace (sequence counters and the last gateway),
      the success statistics, the remembered gateway, the two detector states, the
      acknowledgement mailbox and `GATEWAY_MACS`. */
  class CieNode {
    var nvsSeq: map<string, uint32>
    var nvsGw: map<string, uint8>
    var successfulAcks: uint32
    var totalAttempts: uint32
    var lastSuccessfulGateway: int
    const slot: AckSlot
    const sensor1State: SensorState
    const sensor2State: SensorState
    /** `GATEWAY_MACS`. */
    const gatewayMacs: seq<Mac>

    /** The mailbox keeps its invariant, the remembered gateway is a valid index, and
        the two sensors have separate detector states. */
    ghost predicate Valid()
      reads this, slot
    {
      && slot.Valid()
      && 0 <= lastSuccessfulGateway < MaxGateways
      && |gatewayMacs| == MaxGateways
      && sensor1State != sensor2State
    }

    constructor (nvsSeq0: map<string, uint32>, nvsGw0: map<string, uint8>)
      ensures Valid()
      ensures nvsSeq == nvsSeq0 && nvsGw == nvsGw0
      ensures !slot.ackReceived && successfulAcks == 0 && totalAttempts == 0 && lastSuccessfulGateway == 0
      ensures fresh(sensor1State) && fresh(sensor2State) && fresh(slot)
      ensures !sensor1State.initialized && !sensor2State.initialized
      ensures gatewayMacs == GatewayMacs
    {
      gatewayMacs := GatewayMacs;
      nvsSeq := nvsSeq0;
      nvsGw := nvsGw0;
      successfulAcks := 0;
      totalAttempts := 0;
      lastSuccessfulGateway := 0;
      slot := new AckSlot();
      sensor1State := new SensorState();
      sensor2State := new SensorState();
    }

    /** `nvs_set_last_gateway`: an index outside the table is not written. */
    method NvsSetLastGateway(gwIdx: int)
      modifies this
      ensures nvsGw == SetLastGateway(old(nvsGw), gwIdx)
      ensures nvsSeq == old(nvsSeq) && successfulAcks == old(successfulAcks)
      ensures totalAttempts == old(totalAttempts) && lastSuccessfulGateway == old(lastSuccessfulGateway)
    {
      if gwIdx < 0 || gwIdx >= MaxGateways {
        return;
      }
      nvsGw := nvsGw[LastGwKey := gwIdx as uint8];
    }

    /** The loop body of `espnow_send_payload` for one gateway: skip it when its slot is
        unconfigured, otherwise make the `k`-th send to it and wait. */
    method TryGateway(seqNum: uint32, nodeId: uint8, gwIdx: int, k: nat, sendOk: seq<bool>,
                      arrival: seq<seq<Option<seq<uint8>>>>)
      returns (tried: bool, matched: bool, ghost at: nat)
      requires Valid() && 0 <= gwIdx < MaxGateways
      modifies slot
      ensures Valid()
      ensures tried == Configured(gatewayMacs[gwIdx])
      ensures matched ==> && tried && SendResult(sendOk, k) && slot.ackReceived
                          && AckMatches(slot.lastAck, seqNum, nodeId)
                          && at < AckWaitPolls && AckDeliveredAt(arrival, k, at, slot.lastAck)
      ensures matched <==> tried && TrySucceeds(seqNum, nodeId, k, sendOk, arrival)
    {
      tried := IsConfigured(gatewayMacs[gwIdx]);
      matched, at := false, 0;
      if tried {
        matched, at := slot.SendAndWait(seqNum, nodeId, k, sendOk, arrival);
      }
    }

    /** The bookkeeping after a matching acknowledgement: count it, persist the gateway
        and remember it for the next call. */
    method RecordSuccess(gwIdx: int)
      requires Valid() && 0 <= gwIdx < MaxGateways
      modifies this
      ensures Valid()
      ensures successfulAcks == Wrap32(old(successfulAcks) as int + 1)
      ensures nvsGw == SetLastGateway(old(nvsGw), gwIdx) && lastSuccessfulGateway == gwIdx
      ensures nvsSeq == old(nvsSeq) && totalAttempts == old(totalAttempts)
    {
      successfulAcks := Wrap32(successfulAcks as int + 1);
      NvsSetLastGateway(gwIdx);
      lastSuccessfulGateway := gwIdx;
    }

    /** Gateway `g` of a pass: skipped when unconfigured, otherwise one send-and-wait
        numbered `sends`, followed by the pass's pause when it fails. `passSent` and
        `passBackoff` are the sends and pauses of the pass so far. */
    method GatewayStep(seqNum: uint32, nodeId: uint8, order: seq<int>, g: nat, sends0: nat, sends: nat,
                       backoff: int, ghost passSent: seq<int>, ghost passBackoff: seq<int>,
                       sendOk: seq<bool>, arrival: seq<seq<Option<seq<uint8>>>>)
      returns (matched: bool, gwIdx: int, sends': nat, ghost passSent': seq<int>, ghost passBackoff': seq<int>,
               ghost at: nat)
      requires Valid()
      requires |order| == MaxGateways && forall j :: 0 <= j < |order| ==> 0 <= order[j] < MaxGateways
      requires g < MaxGateways && passSent == Round(order[..g], gatewayMacs)
      requires sends == sends0 + |passSent| && |passBackoff| == |passSent|
      requires forall d :: d in passBackoff ==> d == backoff
      requires forall j :: sends0 <= j < sends ==> !TrySucceeds(seqNum, nodeId, j, sendOk, arrival)
      modifies slot
      ensures Valid()
      ensures sends' == sends0 + |passSent'|
      ensures forall d :: d in passBackoff' ==> d == backoff
      ensures !matched ==> && passSent' == Round(order[..g + 1], gatewayMacs) && |passBackoff'| == |passSent'|
                           && forall j :: sends0 <= j < sends' ==> !TrySucceeds(seqNum, nodeId, j, sendOk, arrival)
      ensures matched ==> && |passSent'| > 0 && IsPrefix(passSent', Round(order, gatewayMacs))
                          && |passBackoff'| == |passSent'| - 1 && gwIdx == passSent'[|passSent'| - 1]
                          && 0 <= gwIdx < MaxGateways
                          && SendResult(sendOk, sends' - 1)
                          && slot.ackReceived && AckMatches(slot.lastAck, seqNum, nodeId)
                          && at < AckWaitPolls && AckDeliveredAt(arrival, sends' - 1, at, slot.lastAck)
                          && TrySucceeds(seqNum, nodeId, sends' - 1, sendOk, arrival)
      ensures matched ==> forall j :: sends0 <= j < sends' - 1 ==> !TrySucceeds(seqNum, nodeId, j, sendOk, arrival)
    {
      RoundStep(order, g, gatewayMacs);
      gwIdx := order[g];
      var tried;
      tried, matched, at := TryGateway(seqNum, nodeId, gwIdx, sends, sendOk, arrival);
      sends', passSent', passBackoff' := sends, passSent, passBackoff;
      if tried {
        sends', passSent' := sends + 1, passSent + [gwIdx];
        if matched {
          RoundPrefix(order, g + 1, gatewayMacs);
        } else {
          NoTrySucceedsExtend(seqNum, nodeId, sends0, sends, sendOk, arrival);
          passBackoff' := passBackoff + [backoff];
        }
      }
    }

    /** One pass of `espnow_send_payload` over the gateway order: every configured
        gateway in turn gets one send-and-wait, each failure is followed by the pause of
        this attempt, and the pass stops at the first matching acknowledgement. `sends0`
        counts the sends made before the pass; `passSent` and `passBackoff` are what this
        pass sends to and pauses for. */
    method SendPass(seqNum: uint32, nodeId: uint8, order: seq<int>, attempt: nat, sends0: nat,
                    sendOk: seq<bool>, arrival: seq<seq<Option<seq<uint8>>>>)
      returns (matched: bool, gwIdx: int, sends: nat, ghost passSent: seq<int>, ghost passBackoff: seq<int>,
               ghost at: nat)
      requires Valid()
      requires |order| == MaxGateways && forall j :: 0 <= j < |order| ==> 0 <= order[j] < MaxGateways
      modifies slot
      ensures Valid()
      ensures sends == sends0 + |passSent|
      ensures forall d :: d in passBackoff ==> d == 100 * Pow2(attempt)
      ensures !matched ==> passSent == Round(order, gatewayMacs) && |passBackoff| == |passSent|
      ensures matched ==> && |passSent| > 0 && IsPrefix(passSent, Round(order, gatewayMacs))
                          && |passBackoff| == |passSent| - 1 && gwIdx == passSent[|passSent| - 1]
                          && 0 <= gwIdx < MaxGateways
                          && SendResult(sendOk, sends - 1)
                          && slot.ackReceived && AckMatches(slot.lastAck, seqNum, nodeId)
                          && at < AckWaitPolls && AckDeliveredAt(arrival, sends - 1, at, slot.lastAck)
                          && TrySucceeds(seqNum, nodeId, sends - 1, sendOk, arrival)
      ensures forall j :: sends0 <= j < (if matched then sends - 1 else sends) ==>
                !TrySucceeds(seqNum, nodeId, j, sendOk, arrival)
    {
      passSent := [];
      passBackoff := [];
      sends := sends0;
      matched := false;
      gwIdx := 0;
      at := 0;
      var backoff := 100 * Pow2(attempt);
      var g := 0;
      while g < MaxGateways
        invariant 0 <= g <= MaxGateways
        invariant Valid()
        invariant passSent == Round(order[..g], gatewayMacs) && !matched
        invariant sends == sends0 + |passSent| && |passBackoff| == |passSent|
        invariant forall d :: d in passBackoff ==> d == backoff
        invariant forall j :: sends0 <= j < sends ==> !TrySucceeds(seqNum, nodeId, j, sendOk, arrival)
      {
        matched, gwIdx, sends, passSent, passBackoff, at :=
          GatewayStep(seqNum, nodeId, order, g, sends0, sends, backoff, passSent, passBackoff, sendOk, arrival);
        if matched {
          return;
        }
        g := g + 1;
      }
      assert order[..MaxGateways] == order;
    }

    /** The two attempts of `espnow_send_payload` over a fixed gateway order, stopping at
        the first matching acknowledgement. `sent` lists the gateway addressed by each call
        to `esp_now_send` and `backoffMs` each pause taken. */
    method RunAttempts(seqNum: uint32, nodeId: uint8, order: seq<int>, sendOk: seq<bool>,
                       arrival: seq<seq<Option<seq<uint8>>>>)
      returns (matched: bool, gwIdx: int, ghost sent: seq<int>, ghost backoffMs: seq<int>, ghost at: nat)
      requires Valid()
      requires |order| == MaxGateways && forall j :: 0 <= j < |order| ==> 0 <= order[j] < MaxGateways
      modifies slot
      ensures Valid()
      ensures IsPrefix(sent, Repeat(Round(order, gatewayMacs), EspnowSendRetries))
      ensures forall d :: d in backoffMs ==> d == 100 || d == 200
      ensures !matched ==> sent == Repeat(Round(order, gatewayMacs), EspnowSendRetries) && |backoffMs| == |sent|
      ensures matched ==> && |sent| > 0 && SendResult(sendOk, |sent| - 1)
                          && |backoffMs| == |sent| - 1
                          && gwIdx == sent[|sent| - 1] && 0 <= gwIdx < MaxGateways
                          && slot.ackReceived && AckMatches(slot.lastAck, seqNum, nodeId)
                          && at < AckWaitPolls && AckDeliveredAt(arrival, |sent| - 1, at, slot.lastAck)
                          && TrySucceeds(seqNum, nodeId, |sent| - 1, sendOk, arrival)
      ensures forall j :: 0 <= j < (if matched then |sent| - 1 else |sent|) ==>
                !TrySucceeds(seqNum, nodeId, j, sendOk, arrival)
      ensures matched <==>
                SomeTrySucceeds(seqNum, nodeId, |Repeat(Round(order, gatewayMacs), EspnowSendRetries)|, sendOk, arrival)
    {
      ghost var round := Round(order, gatewayMacs);
      matched, gwIdx, at := false, 0, 0;
      sent := [];
      backoffMs := [];
      var sends: nat := 0;
      var attempt := 0;
      while attempt < EspnowSendRetries
        invariant 0 <= attempt <= EspnowSendRetries
        invariant Valid()
        invariant sent == Repeat(round, attempt)
        invariant sends == |sent| && |backoffMs| == |sent|
        invariant forall d :: d in backoffMs ==> d == 100 || d == 200
        invariant forall j :: 0 <= j < sends ==> !TrySucceeds(seqNum, nodeId, j, sendOk, arrival)
      {
        ghost var passSent, passBackoff;
        matched, gwIdx, sends, passSent, passBackoff, at :=
          SendPass(seqNum, nodeId, order, attempt, sends, sendOk, arrival);
        assert Pow2(attempt) == 1 || Pow2(attempt) == 2;
        PassPrefix(round, attempt, passSent);
        sent := sent + passSent;
        backoffMs := backoffMs + passBackoff;
        if matched {
          return;
        }
        assert Repeat(round, attempt + 1) == Repeat(round, attempt) + round;
        attempt := attempt + 1;
      }
      assert Repeat(round, 2)[..|sent|] == sent;
      matched := false;
    }

    /** `espnow_send_payload`, with the radio given by the oracles of `SendResult` and
        `FrameAt`: count the call, build the order from the stored gateway, run the
        attempts, and on a matching acknowledgement count it and persist the gateway. */
    method EspnowSendPayload(seqNum: uint32, nodeId: uint8, sendOk: seq<bool>,
                             arrival: seq<seq<Option<seq<uint8>>>>)
      returns (ok: bool, ghost sent: seq<int>, ghost backoffMs: seq<int>)
      requires Valid()
      modifies this, slot
      ensures Valid()
      ensures totalAttempts == Wrap32(old(totalAttempts) as int + 1)
      ensures nvsSeq == old(nvsSeq)
      ensures IsPrefix(sent, Schedule(LastGateway(old(nvsGw)), gatewayMacs))
      ensures forall d :: d in backoffMs ==> d == 100 || d == 200
      ensures !ok ==> && sent == Schedule(LastGateway(old(nvsGw)), gatewayMacs)
                      && |backoffMs| == |sent|
                      && successfulAcks == old(successfulAcks) && nvsGw == old(nvsGw)
                      && lastSuccessfulGateway == LastGateway(old(nvsGw))
      ensures ok ==> && |sent| > 0 && SendResult(sendOk, |sent| - 1)
                     && |backoffMs| == |sent| - 1
                     && slot.ackReceived && AckMatches(slot.lastAck, seqNum, nodeId)
                     && AckArrivedDuring(arrival, |sent| - 1, slot.lastAck)
                     && successfulAcks == Wrap32(old(successfulAcks) as int + 1)
                     && lastSuccessfulGateway == sent[|sent| - 1]
                     && nvsGw == SetLastGateway(old(nvsGw), sent[|sent| - 1])
                     && TrySucceeds(seqNum, nodeId, |sent| - 1, sendOk, arrival)
      ensures forall j :: 0 <= j < (if ok then |sent| - 1 else |sent|) ==>
                !TrySucceeds(seqNum, nodeId, j, sendOk, arrival)
      ensures ok <==>
                SomeTrySucceeds(seqNum, nodeId, |Schedule(LastGateway(old(nvsGw)), gatewayMacs)|, sendOk, arrival)
    {
      totalAttempts := Wrap32(totalAttempts as int + 1);
      lastSuccessfulGateway := LastGateway(nvsGw);
      var order := BuildOrder(lastSuccessfulGateway);
      var matched, gwIdx;
      ghost var at;
      matched, gwIdx, sent, backoffMs, at := RunAttempts(seqNum, nodeId, order, sendOk, arrival);
      ok := matched;
      if matched {
        RecordSuccess(gwIdx);
      }
    }

    /** `measure_and_send_sensor`: `echoes` are the three raw measurements, `estimates`
        the filter's outputs, `vin` the voltage conversion, `devMac` the station address.
        The sequence number advances in NVS only when the gateway acknowledged. */
    method MeasureAndSendSensor(nodeId: uint8, seqKey: string, state: SensorState,
                                echoes: seq<Ultrasonic.Echo>, estimates: seq<int>,
                                vin: AdcSample, devMac: Mac,
                                sendOk: seq<bool>, arrival: seq<seq<Option<seq<uint8>>>>)
      returns (pkt: TelemetryPacket.SensorPacketV1, ok: bool)
      requires Valid()
      requires |echoes| == UltraSampleRetries && |estimates| == UltraSampleRetries
      modifies this, slot, state
      ensures Valid()
      ensures pkt == CiePacket(nodeId, devMac, NextSeq(old(nvsSeq), seqKey),
                               CieDistance(Ultrasonic.Readings(echoes), estimates), ReadVinMv(vin), old(state.Value()))
      ensures ok <==> SomeTrySucceeds(NextSeq(old(nvsSeq), seqKey), nodeId, 2 * ConfiguredCount(gatewayMacs),
                                      sendOk, arrival)
      ensures totalAttempts == Wrap32(old(totalAttempts) as int + 1)
      ensures nvsSeq == if ok then old(nvsSeq)[seqKey := NextSeq(old(nvsSeq), seqKey)] else old(nvsSeq)
      ensures state.Value() == NextAnomaly(old(state.Value()), CieDistance(Ultrasonic.Readings(echoes), estimates),
                                           NextSeq(old(nvsSeq), seqKey))
    {
      var seqNum := StoredSeq(nvsSeq, seqKey, 0);
      seqNum := Wrap32(seqNum as int + 1);
      pkt := BuildSensorPacket(nodeId, seqNum, state, echoes, estimates, vin, devMac);
      ok := SendAndPersist(seqNum, nodeId, seqKey, sendOk, arrival);
    }

    /** The delivery half of `measure_and_send_sensor`: send, and store the number only
        when `espnow_send_payload` returned `ESP_OK`. */
    method SendAndPersist(seqNum: uint32, nodeId: uint8, seqKey: string, sendOk: seq<bool>,
                          arrival: seq<seq<Option<seq<uint8>>>>)
      returns (ok: bool)
      requires Valid()
      modifies this, slot
      ensures Valid()
      ensures ok <==> SomeTrySucceeds(seqNum, nodeId, 2 * ConfiguredCount(gatewayMacs), sendOk, arrival)
      ensures totalAttempts == Wrap32(old(totalAttempts) as int + 1)
      ensures nvsSeq == if ok then old(nvsSeq)[seqKey := seqNum] else old(nvsSeq)
    {
      ghost var sentTo, pauses;
      ok, sentTo, pauses := EspnowSendPayload(seqNum, nodeId, sendOk, arrival);
      ScheduleLength(LastGateway(old(nvsGw)), gatewayMacs);
      if ok {
        nvsSeq := nvsSeq[seqKey := seqNum];
      }
    }

    /** One turn of the main loop: sensor 1 as node 4 under "seq1", then sensor 2 as
        node 5 under "seq2"; each sensor's counter and detector state are its own. */
    method Cycle(echoes1: seq<Ultrasonic.Echo>, estimates1: seq<int>,
                 echoes2: seq<Ultrasonic.Echo>, estimates2: seq<int>,
                 vin1: AdcSample, vin2: AdcSample, devMac: Mac,
                 sendOk1: seq<bool>, arrival1: seq<seq<Option<seq<uint8>>>>,
                 sendOk2: seq<bool>, arrival2: seq<seq<Option<seq<uint8>>>>)
      returns (pkt1: TelemetryPacket.SensorPacketV1, ok1: bool, pkt2: TelemetryPacket.SensorPacketV1, ok2: bool)
      requires Valid()
      requires |echoes1| == UltraSampleRetries && |estimates1| == UltraSampleRetries
      requires |echoes2| == UltraSampleRetries && |estimates2| == UltraSampleRetries
      modifies this, slot, sensor1State, sensor2State
      ensures Valid()
      ensures StoredSeq(nvsSeq, SeqKey1, 0) == if ok1 then NextSeq(old(nvsSeq), SeqKey1) else StoredSeq(old(nvsSeq), SeqKey1, 0)
      ensures StoredSeq(nvsSeq, SeqKey2, 0) == if ok2 then NextSeq(old(nvsSeq), SeqKey2) else StoredSeq(old(nvsSeq), SeqKey2, 0)
      ensures pkt1 == CiePacket(NodeId1, devMac, NextSeq(old(nvsSeq), SeqKey1),
                                CieDistance(Ultrasonic.Readings(echoes1), estimates1), ReadVinMv(vin1),
                                old(sensor1State.Value()))
      ensures pkt2 == CiePacket(NodeId2, devMac, NextSeq(old(nvsSeq), SeqKey2),
                                CieDistance(Ultrasonic.Readings(echoes2), estimates2), ReadVinMv(vin2),
                                old(sensor2State.Value()))
      ensures ok1 <==> SomeTrySucceeds(NextSeq(old(nvsSeq), SeqKey1), NodeId1, 2 * ConfiguredCount(gatewayMacs),
                                       sendOk1, arrival1)
      ensures ok2 <==> SomeTrySucceeds(NextSeq(old(nvsSeq), SeqKey2), NodeId2, 2 * ConfiguredCount(gatewayMacs),
                                       sendOk2, arrival2)
      ensures sensor1State.Value() == NextAnomaly(old(sensor1State.Value()),
                                                  CieDistance(Ultrasonic.Readings(echoes1), estimates1),
                                                  NextSeq(old(nvsSeq), SeqKey1))
      ensures sensor2State.Value() == NextAnomaly(old(sensor2State.Value()),
                                                  CieDistance(Ultrasonic.Readings(echoes2), estimates2),
                                                  NextSeq(old(nvsSeq), SeqKey2))
      ensures totalAttempts == Wrap32(old(totalAttempts) as int + 2)
    {
      pkt1, ok1 := MeasureAndSendSensor(NodeId1, SeqKey1, sensor1State, echoes1, estimates1, vin1, devMac,
                                        sendOk1, arrival1);
      SeqAdvancesOnlyOnSuccess(old(nvsSeq), SeqKey1, SeqKey2);
      pkt2, ok2 := MeasureAndSendSensor(NodeId2, SeqKey2, sensor2State, echoes2, estimates2, vin2, devMac,
                                        sendOk2, arrival2);
      Wrap32Succ(old(totalAttempts) as int + 1);
    }
  }

  /** The sampling and packet-building half of `measure_and_send_sensor`: measure, convert,
      run the anomaly detector on a valid distance, and fill in the packet. */
  method BuildSensorPacket(nodeId: uint8, seqNum: uint32, state: SensorState,
                           echoes: seq<Ultrasonic.Echo>, estimates: seq<int>,
                           vin: AdcSample, devMac: Mac)
    returns (pkt: TelemetryPacket.SensorPacketV1)
    requires |echoes| == UltraSampleRetries && |estimates| == UltraSampleRetries
    modifies state
    ensures pkt == CiePacket(nodeId, devMac, seqNum, CieDistance(Ultrasonic.Readings(echoes), estimates),
                             ReadVinMv(vin), old(state.Value()))
    ensures state.Value() == NextAnomaly(old(state.Value()), CieDistance(Ultrasonic.Readings(echoes), estimates), seqNum)
  {
    var distanceCm := MeasureDistance(echoes, estimates);
    var vinMv := ReadVinMv(vin);
    if vinMv < 0 {
      vinMv := 0;
    }
    var levelCm, percentual, volumeL := 0, 0, 0;
    if distanceCm >= 0 {
      var res := LevelCalculator.Compute(distanceCm, TankModel);
      levelCm, percentual, volumeL := res.levelCm, res.percentual, res.volumeL;
    }
    var flags: uint8 := 0;
    var alertType := TelemetryPacket.AlertNone;
    if distanceCm >= 0 {
      flags, alertType := state.DetectAnomalies(levelCm, seqNum);
    } else {
      flags := TelemetryPacket.FlagIsAlert;
      alertType := TelemetryPacket.AlertSensorStuck;
    }
    pkt := TelemetryPacket.SensorPacketV1(
      TelemetryPacket.SensorPacketVersion, nodeId, devMac, seqNum,
      ToInt16(distanceCm), ToInt16(levelCm), Wrap8(percentual), Wrap32(volumeL),
      ToInt16(vinMv), flags, alertType, 0, 0);
  }

  /** The configured check of `espnow_send_payload`: scan the six address bytes for one
      that is not 0xFF. */
  method IsConfigured(mac: Mac) returns (configured: bool)
    ensures configured == Configured(mac)
  {
    configured := false;
    var b := 0;
    while b < 6 && !configured
      invariant 0 <= b <= 6
      invariant configured ==> b < 6 && mac[b] != 0xFF
      invariant forall j :: 0 <= j < b ==> mac[j] == 0xFF
      decreases 6 - b, if configured then 0 else 1
    {
      if mac[b] != 0xFF {
        configured := true;
      } else {
        b := b + 1;
      }
    }
    if configured {
      assert mac[b] != Unconfigured[b];
    } else {
      assert mac == Unconfigured;
    }
  }

  /** The `gw_order` loop: the preferred index, then every other index ascending. */
  method BuildOrder(pref: int) returns (order: seq<int>)
    requires 0 <= pref < MaxGateways
    ensures order == GwOrder(pref)
  {
    order := [pref];
    var i := 0;
    while i < MaxGateways
      invariant 0 <= i <= MaxGateways
      invariant order == [pref] + Others(pref, i)
    {
      if i != pref {
        order := order + [i];
      }
      i := i + 1;
    }
  }

  /** The sampling loop of `measure_and_send_sensor`: three readings, the filter's
      estimate after each one in [5, 450], -1 when none was, then the range clamp. */
  method MeasureDistance(echoes: seq<Ultrasonic.Echo>, estimates: seq<int>) returns (distanceCm: int)
    requires |echoes| == UltraSampleRetries && |estimates| == UltraSampleRetries
    ensures distanceCm == CieDistance(Ultrasonic.Readings(echoes), estimates)
  {
    ghost var raw := Ultrasonic.Readings(echoes);
    distanceCm := -1;
    var validReadings := 0;
    var attempt := 0;
    while attempt < UltraSampleRetries
      invariant 0 <= attempt <= UltraSampleRetries
      invariant validReadings == CountValid(raw[..attempt])
      invariant validReadings == 0 ==> distanceCm == -1
      invariant validReadings > 0 ==> distanceCm == estimates[validReadings - 1]
    {
      assert raw[..attempt + 1][..attempt] == raw[..attempt];
      var rawDistance := Ultrasonic.MeasureCm(echoes[attempt], Ultrasonic.DefaultTimeoutUs);
      if MinValidCm <= rawDistance <= MaxValidCm {
        distanceCm := estimates[validReadings];
        validReadings := validReadings + 1;
      }
      attempt := attempt + 1;
    }
    assert raw[..UltraSampleRetries] == raw;
    if validReadings == 0 {
      distanceCm := -1;
    }
    if distanceCm >= 0 && (distanceCm < MinValidCm || distanceCm > MaxValidCm) {
      if distanceCm < MinValidCm {
        distanceCm := MinValidCm;
      }
      if distanceCm > MaxValidCm {
        distanceCm := MaxValidCm;
      }
    }
  }

  /** `a` is an initial segment of `b`. */
  predicate IsPrefix(a: seq<int>, b: seq<int>) {
    |a| <= |b| && b[..|a|] == a
  }

  /** The configured gateways among the first `g` entries of an order are the first
      sends of the whole pass. */
  lemma {:induction false} RoundPrefix(order: seq<int>, g: nat, macs: seq<Mac>)
    requires g <= |order|
    ensures IsPrefix(Round(order[..g], macs), Round(order, macs))
    decreases |order| - g
  {
    if g < |order| {
      var init := order[..|order| - 1];
      assert init[..g] == order[..g];
      RoundPrefix(init, g, macs);
      assert order[..|order|] == order;
    } else {
      assert order[..g] == order;
    }
  }

  lemma {:induction false} RepeatPrefix(r: seq<int>, a: nat, n: nat)
    requires a <= n
    ensures IsPrefix(Repeat(r, a), Repeat(r, n))
    decreases n - a
  {
    if a < n {
      RepeatPrefix(r, a + 1, n);
      assert Repeat(r, a + 1) == Repeat(r, a) + r;
      assert Repeat(r, a + 1)[..|Repeat(r, a)|] == Repeat(r, a);
    }
  }

  /** What has been sent after `attempt` full passes and part `p` of the next is a
      prefix of the schedule. */
  lemma PassPrefix(round: seq<int>, attempt: nat, p: seq<int>)
    requires attempt < EspnowSendRetries && IsPrefix(p, round)
    ensures IsPrefix(Repeat(round, attempt) + p, Repeat(round, EspnowSendRetries))
  {
    RepeatPrefix(round, attempt + 1, EspnowSendRetries);
    assert Repeat(round, attempt + 1) == Repeat(round, attempt) + round;
    var a := Repeat(round, attempt) + p;
    assert (Repeat(round, attempt) + round)[..|a|] == a;
  }
}

/** The single-sensor node (node_ultra1.cpp): one broadcast packet per 30 s cycle, the
    distance taken as the median of three readings with timeouts replaced by a sentinel,
    a two-try send without acknowledgement, and a timer-driven LED blink pattern. */
module NodeUltra1 {
  import opened Bytes
  import opened Wrappers
  import opened Hardware
  import LevelCalculator
  import Ultrasonic
  import TelemetryPacket

  const VolMaxL: int := 80000
  const LevelMaxCm: int := 450
  const SensorOffsetCm: int := 20
  const TankModel: LevelCalculator.Model := LevelCalculator.Model(LevelMaxCm, SensorOffsetCm, VolMaxL)

  const SampleIntervalS: int := 30
  const UltraSampleRetries: nat := 3
  const UltraMeasureDelayMs: int := 60
  const EspnowSendRetries: nat := 2
  /** The pause after a failed `esp_now_send`. */
  const SendRetryDelayMs: int := 200

  const MinValidCm: int := 5
  const MaxValidCm: int := 450
  /** What a timed-out reading is replaced by before the median. */
  const Sentinel: int := 10000

  const NodeId: uint8 := 1
  const SeqKey: string := "seq"
  const GatewayMac: Mac := [0x80, 0xf3, 0xda, 0x62, 0xa7, 0x84]

  // ---------------------------------------------------------------------
  // Supply voltage

  /** `read_vin_mv`: -1 without an ADC unit or on a failed read; otherwise the calibrated
      millivolts or, without a calibration scheme, the 12-bit count scaled to 3300 mV with
      C's truncating division; doubled for the V/2 divider. */
  function ReadVinMv(a: AdcSample): (mv: int)
    ensures !a.unitReady || !a.readOk ==> mv == -1
    ensures a.unitReady && a.readOk && a.calibratedMv.Some? ==> mv == 2 * a.calibratedMv.value
  {
    if !a.unitReady then -1
    else if !a.readOk then -1
    else
      var voltageMv := if a.calibratedMv.Some? then a.calibratedMv.value else CDiv(a.raw * 3300, 4095);
      voltageMv * 2
  }

  /** Without calibration a count in the 12-bit range gives 0..6600 mV, never more than
      2 mV below the exact proportional value, and a larger count never gives less. */
  lemma FallbackVin(a: AdcSample, b: AdcSample)
    requires a.unitReady && a.readOk && a.calibratedMv.None? && 0 <= a.raw <= 4095
    requires b.unitReady && b.readOk && b.calibratedMv.None? && a.raw <= b.raw <= 4095
    ensures 0 <= ReadVinMv(a) <= 6600
    ensures 4095 * ReadVinMv(a) <= 6600 * a.raw < 4095 * (ReadVinMv(a) + 2)
    ensures ReadVinMv(a) <= ReadVinMv(b)
  {
    LevelCalculator.FloorDivBounds(a.raw, 3300, 4095);
    LevelCalculator.MulLeMono(a.raw, b.raw, 3300);
    LevelCalculator.DivMono(a.raw * 3300, b.raw * 3300, 4095);
  }

  /** The main loop's substitution of 0 for a failed read. */
  function VinOrZero(mv: int): (r: int)
    ensures r >= 0
    ensures mv >= 0 ==> r == mv
  {
    if mv < 0 then 0 else mv
  }

  // ---------------------------------------------------------------------
  // Distance selection

  /** How many readings timed out. */
  function Timeouts(readings: seq<int>): (n: nat)
    ensures n <= |readings|
  {
    if |readings| == 0 then 0
    else Timeouts(readings[..|readings| - 1]) + (if readings[|readings| - 1] < 0 then 1 else 0)
  }

  function Substitute(reading: int): int {
    if reading < 0 then Sentinel else reading
  }

  /** The median-with-sentinel rule of the main loop: -1 when no reading is valid, or when
      the median of the substituted readings is a sentinel. */
  function ChooseDistance(readings: seq<int>): (d: int)
    requires |readings| == UltraSampleRetries
  {
    if Timeouts(readings) == UltraSampleRetries then -1
    else
      var med := Ultrasonic.Median3(Substitute(readings[0]), Substitute(readings[1]), Substitute(readings[2]));
      if med > 9999 then -1 else med
  }

  /** The range validation: anything below 5 cm (the -1 failure value included) becomes
      5 cm, anything above 450 cm becomes 450 cm. */
  function RangeClamp(d: int): (r: int)
    ensures MinValidCm <= r <= MaxValidCm
    ensures MinValidCm <= d <= MaxValidCm ==> r == d
    ensures d < MinValidCm ==> r == MinValidCm
    ensures d > MaxValidCm ==> r == MaxValidCm
  {
    var d1 := if d < MinValidCm then MinValidCm else d;
    if d1 > MaxValidCm then MaxValidCm else d1
  }

  /** A reading as `measure_cm` delivers it: -1, or a centimetre count below the
      sentinel. */
  predicate WellFormed(readings: seq<int>) {
    forall j :: 0 <= j < |readings| ==> readings[j] == -1 || 0 <= readings[j] <= 9999
  }

  lemma Timeouts3(readings: seq<int>)
    requires |readings| == 3
    ensures Timeouts(readings) == (if readings[0] < 0 then 1 else 0) + (if readings[1] < 0 then 1 else 0)
                                  + (if readings[2] < 0 then 1 else 0)
  {
    var r2, r1 := readings[..2], readings[..1];
    assert readings[..|readings| - 1] == r2 && r2[..|r2| - 1] == r1 && r1[..|r1| - 1] == [];
    assert Timeouts(r1) == (if readings[0] < 0 then 1 else 0);
    assert Timeouts(r2) == Timeouts(r1) + (if readings[1] < 0 then 1 else 0);
  }

  /** The distance is -1 exactly when at least two of the three readings timed out;
      otherwise it is one of the readings that did not. */
  lemma {:induction false} FailureIffTwoTimeouts(readings: seq<int>)
    requires |readings| == UltraSampleRetries && WellFormed(readings)
    ensures ChooseDistance(readings) == -1 <==> Timeouts(readings) >= 2
    ensures ChooseDistance(readings) != -1 ==>
              exists j :: 0 <= j < 3 && readings[j] >= 0 && ChooseDistance(readings) == readings[j]
  {
    Timeouts3(readings);
    var a, b, c := Substitute(readings[0]), Substitute(readings[1]), Substitute(readings[2]);
    var med := Ultrasonic.Median3(a, b, c);
    assert readings[0] == -1 || 0 <= readings[0] <= 9999;
    assert readings[1] == -1 || 0 <= readings[1] <= 9999;
    assert readings[2] == -1 || 0 <= readings[2] <= 9999;
    if med <= 9999 {
      if med == a { assert ChooseDistance(readings) == readings[0]; }
      else if med == b { assert ChooseDistance(readings) == readings[1]; }
      else { assert ChooseDistance(readings) == readings[2]; }
    }
  }

  /** With exactly one timeout the median of {x, y, 10000} is the larger valid reading. */
  lemma {:induction false} OneTimeoutTakesLarger(readings: seq<int>)
    requires |readings| == UltraSampleRetries && WellFormed(readings)
    requires Timeouts(readings) == 1
    ensures var valid := if readings[0] < 0 then [readings[1], readings[2]]
                         else if readings[1] < 0 then [readings[0], readings[2]]
                         else [readings[0], readings[1]];
      ChooseDistance(readings) == (if valid[0] >= valid[1] then valid[0] else valid[1])
  {
    Timeouts3(readings);
    assert readings[0] == -1 || 0 <= readings[0] <= 9999;
    assert readings[1] == -1 || 0 <= readings[1] <= 9999;
    assert readings[2] == -1 || 0 <= readings[2] <= 9999;
  }

  /** With no timeout the distance is the plain median of the three readings. */
  lemma NoTimeoutTakesMedian(readings: seq<int>)
    requires |readings| == UltraSampleRetries && WellFormed(readings)
    requires Timeouts(readings) == 0
    ensures ChooseDistance(readings) == Ultrasonic.Median3(readings[0], readings[1], readings[2])
  {
    Timeouts3(readings);
    assert readings[0] == -1 || 0 <= readings[0] <= 9999;
    assert readings[1] == -1 || 0 <= readings[1] <= 9999;
    assert readings[2] == -1 || 0 <= readings[2] <= 9999;
  }

  /** Readings taken by `measure_cm` at the default timeout are well formed. */
  lemma ReadingsWellFormed(echoes: seq<Ultrasonic.Echo>)
    ensures WellFormed(Ultrasonic.Readings(echoes))
  {
    forall j | 0 <= j < |echoes|
      ensures Ultrasonic.Readings(echoes)[j] == -1 || 0 <= Ultrasonic.Readings(echoes)[j] <= 9999
    {
      Ultrasonic.ReadingBelowSentinel(echoes[j]);
    }
  }

  /** The sampling loop: three calls of `measure_cm`, each stored (-1 for a timeout) and
      counted when valid. */
  method SampleReadings(echoes: seq<Ultrasonic.Echo>) returns (readings: seq<int>, validReadings: nat)
    requires |echoes| == UltraSampleRetries
    ensures readings == Ultrasonic.Readings(echoes)
    ensures validReadings + Timeouts(readings) == UltraSampleRetries
  {
    readings := [];
    validReadings := 0;
    var i := 0;
    while i < UltraSampleRetries
      invariant 0 <= i <= UltraSampleRetries
      invariant readings == Ultrasonic.Readings(echoes[..i])
      invariant validReadings + Timeouts(readings) == i
    {
      var d := Ultrasonic.MeasureCm(echoes[i], Ultrasonic.DefaultTimeoutUs);
      ghost var next := readings + [if d < 0 then -1 else d];
      assert next == Ultrasonic.Readings(echoes[..i + 1]) by {
        assert echoes[..i + 1][..i] == echoes[..i];
        forall j | 0 <= j < i + 1
          ensures next[j] == Ultrasonic.Readings(echoes[..i + 1])[j]
        {
          if j < i {
            assert echoes[..i + 1][j] == echoes[..i][j];
          }
        }
      }
      assert next[..|readings|] == readings;
      if d < 0 {
        readings := readings + [-1];
      } else {
        readings := readings + [d];
        validReadings := validReadings + 1;
      }
      i := i + 1;
    }
    assert echoes[..UltraSampleRetries] == echoes;
  }

  /** The median computation of the main loop, with the count the sampling loop kept. */
  method SelectDistance(readings: seq<int>, validReadings: nat) returns (distanceCm: int)
    requires |readings| == UltraSampleRetries
    requires validReadings + Timeouts(readings) == UltraSampleRetries
    ensures distanceCm == RangeClamp(ChooseDistance(readings))
  {
    distanceCm := -1;
    if validReadings != 0 {
      var a := if readings[0] < 0 then Sentinel else readings[0];
      var b := if readings[1] < 0 then Sentinel else readings[1];
      var c := if readings[2] < 0 then Sentinel else readings[2];
      var med := Ultrasonic.Median3(a, b, c);
      if med > 9999 {
        distanceCm := -1;
      } else {
        distanceCm := med;
      }
    }
    if distanceCm < 0 || distanceCm < MinValidCm || distanceCm > MaxValidCm {
      if distanceCm < MinValidCm {
        distanceCm := MinValidCm;
      }
      if distanceCm > MaxValidCm {
        distanceCm := MaxValidCm;
      }
    }
  }

  // ---------------------------------------------------------------------
  // Packet

  /** The value-initialised packet the loop fills: node 1, no flags or alert, and rssi and
      timestamp left for the gateway. */
  function Ultra1Packet(mac: Mac, seqNum: uint32, distanceCm: int, vinMv: int): (p: TelemetryPacket.SensorPacketV1)
    ensures p.version == TelemetryPacket.SensorPacketVersion && p.nodeId == NodeId && p.mac == mac
    ensures p.seqNum == seqNum && p.flags == 0 && p.alertType == TelemetryPacket.AlertNone
    ensures p.rssi == 0 && p.tsMs == 0
  {
    var r := LevelCalculator.Compute(distanceCm, TankModel);
    TelemetryPacket.SensorPacketV1(
      TelemetryPacket.SensorPacketVersion, NodeId, mac, seqNum,
      ToInt16(distanceCm), ToInt16(r.levelCm), Wrap8(r.percentual), Wrap32(r.volumeL),
      ToInt16(vinMv), 0, TelemetryPacket.AlertNone, 0, 0)
  }

  /** For a clamped distance and a voltage below 32768 mV no narrowing cast loses
      anything: the packet carries the distance, `compute`'s figures and the voltage. */
  lemma Ultra1PacketFaithful(mac: Mac, seqNum: uint32, distanceCm: int, vinMv: int)
    requires MinValidCm <= distanceCm <= MaxValidCm && 0 <= vinMv < 0x8000
    ensures var p := Ultra1Packet(mac, seqNum, distanceCm, vinMv);
      var r := LevelCalculator.Compute(distanceCm, TankModel);
      && p.distanceCm as int == distanceCm && p.vinMv as int == vinMv
      && p.levelCm as int == r.levelCm && p.percentual as int == r.percentual && p.volumeL as int == r.volumeL
  {
    LevelCalculator.FirmwareArithmeticFits(distanceCm, LevelCalculator.Ultra1Model);
  }

  /** A total sensing failure (two or more timeouts) goes out as a full tank read at
      5 cm, with no flag to tell it apart. */
  lemma TotalFailureReadsFull(echoes: seq<Ultrasonic.Echo>, mac: Mac, seqNum: uint32, vinMv: int)
    requires |echoes| == UltraSampleRetries
    requires Timeouts(Ultrasonic.Readings(echoes)) >= 2
    ensures RangeClamp(ChooseDistance(Ultrasonic.Readings(echoes))) == MinValidCm
    ensures var p := Ultra1Packet(mac, seqNum, MinValidCm, vinMv);
      p.distanceCm == 5 && p.levelCm == 450 && p.percentual == 100 && p.volumeL == 80000 && p.flags == 0
  {
    ReadingsWellFormed(echoes);
    FailureIffTwoTimeouts(Ultrasonic.Readings(echoes));
    LevelCalculator.ReferenceTank(MinValidCm);
  }

  // ---------------------------------------------------------------------
  // Radio

  /** `espnow_send_payload` of this node: up to two sends to the gateway, stopping at
      the first `ESP_OK`, with a 200 ms pause after every failure. `calls` counts the
      calls of `esp_now_send`, `delaysMs` the pauses. */
  method EspnowSendPayload(sendOk: seq<bool>) returns (ok: bool, calls: nat, delaysMs: seq<int>)
    ensures 1 <= calls <= EspnowSendRetries
    ensures ok == SendResult(sendOk, calls - 1)
    ensures forall k :: 0 <= k < calls - 1 ==> !SendResult(sendOk, k)
    ensures !ok ==> calls == EspnowSendRetries
    ensures |delaysMs| == (if ok then calls - 1 else calls)
    ensures forall j :: 0 <= j < |delaysMs| ==> delaysMs[j] == SendRetryDelayMs
  {
    ok := false;
    calls := 0;
    delaysMs := [];
    var r := 0;
    while r < EspnowSendRetries
      invariant 0 <= r <= EspnowSendRetries && calls == r
      invariant r > 0 ==> ok == SendResult(sendOk, r - 1)
      invariant !ok
      invariant forall k :: 0 <= k < r ==> !SendResult(sendOk, k)
      invariant |delaysMs| == r
      invariant forall j :: 0 <= j < |delaysMs| ==> delaysMs[j] == SendRetryDelayMs
    {
      ok := SendResult(sendOk, r);
      calls := calls + 1;
      if ok {
        break;
      }
      delaysMs := delaysMs + [SendRetryDelayMs];
      r := r + 1;
    }
  }

  /** Both tries fail only when both sends fail; otherwise the packet got out. */
  lemma SendSucceedsIffOneTryDoes(sendOk: seq<bool>, ok: bool, calls: nat)
    requires 1 <= calls <= EspnowSendRetries
    requires ok == SendResult(sendOk, calls - 1)
    requires forall k :: 0 <= k < calls - 1 ==> !SendResult(sendOk, k)
    requires !ok ==> calls == EspnowSendRetries
    ensures ok <==> SendResult(sendOk, 0) || SendResult(sendOk, 1)
  {
    if calls == 2 {
      assert !SendResult(sendOk, 0);
    }
  }

  // ---------------------------------------------------------------------
  // LED pattern

  /** `led_pat` together with what the driver calls change: the pin, whether the timer
      was created, and the pending one-shot delay (in microseconds) if the timer is armed. */
  datatype LedState = LedState(remaining: int, onMs: int, offMs: int, active: bool, ledOnPhase: bool,
                               ledOn: bool, timerCreated: bool, armedUs: Option<int>)

  const TWO64: int := 0x1_0000_0000_0000_0000

  /** `(uint64_t)ms * 1000ULL`. */
  function TimerUs(ms: int): (us: int)
    ensures 0 <= us < TWO64
    ensures 0 <= ms < TWO64 / 1000 ==> us == ms * 1000
  {
    ((ms % TWO64) * 1000) % TWO64
  }

  /** `led_pattern_start`: nothing for a count of zero or less or when the timer cannot be
      created; otherwise the pattern is reset and the timer armed for 1 ms. */
  function Start(s: LedState, count: int, onMs: int, offMs: int, createOk: bool): (r: LedState)
    ensures count <= 0 ==> r == s
    ensures count > 0 && (s.timerCreated || createOk) ==>
              r.active && !r.ledOnPhase && r.remaining == count && r.armedUs == Some(1000)
  {
    if count <= 0 then s
    else if !s.timerCreated && !createOk then s
    else LedState(count, onMs, offMs, true, false, s.ledOn, true, Some(1000))
  }

  /** `led_timer_cb`. */
  function Callback(s: LedState): (r: LedState)
  {
    if !s.active then s
    else if s.ledOnPhase then
      var s1 := s.(ledOn := false, ledOnPhase := false, remaining := s.remaining - 1);
      if s1.remaining <= 0 then s1.(active := false)
      else s1.(armedUs := Some(TimerUs(s.offMs)))
    else s.(ledOn := true, ledOnPhase := true, armedUs := Some(TimerUs(s.onMs)))
  }

  /** The one-shot timer expiring: it disarms and runs the callback; an unarmed timer
      never fires. */
  function Fire(s: LedState): (r: LedState)
    ensures s.armedUs.None? ==> r == s
  {
    if s.armedUs.None? then s else Callback(s.(armedUs := None))
  }

  function FireN(s: LedState, n: nat): LedState
    decreases n
  {
    if n == 0 then s else FireN(Fire(s), n - 1)
  }

  /** In the off phase with `r` blinks to go, the next `2r` expiries are `r` on/off
      pairs during which the pattern stays active and armed, and then it is inactive,
      dark and unarmed. */
  lemma {:induction false} Countdown(s: LedState, r: int)
    requires s.active && !s.ledOnPhase && s.armedUs.Some? && s.remaining == r && r >= 1
    ensures forall k :: 0 <= k < 2 * r ==> FireN(s, k).active && FireN(s, k).armedUs.Some?
    ensures var t := FireN(s, 2 * r); !t.active && !t.ledOn && t.armedUs.None?
    decreases r
  {
    var s1 := Fire(s);
    var s2 := Fire(s1);
    assert s1.active && s1.ledOnPhase && s1.ledOn && s1.armedUs.Some? && s1.remaining == r;
    assert FireN(s, 0) == s && FireN(s, 1) == s1 by {
      assert FireN(s1, 0) == s1;
    }
    assert FireN(s, 2) == s2 by {
      assert FireN(s2, 0) == s2;
      assert FireN(s1, 1) == FireN(s2, 0);
    }
    if r == 1 {
      assert !s2.active && !s2.ledOn && s2.armedUs.None?;
    } else {
      assert s2.active && !s2.ledOnPhase && s2.armedUs.Some? && s2.remaining == r - 1;
      Countdown(s2, r - 1);
      forall k | 2 <= k <= 2 * r
        ensures FireN(s, k) == FireN(s2, k - 2)
      {
        assert FireN(s, k) == FireN(s1, k - 1);
      }
    }
  }

  /** `led_pattern_searching`, shown at boot while the radio comes up: three 150 ms
      blinks. */
  function Searching(s: LedState, createOk: bool): (r: LedState)
    ensures (s.timerCreated || createOk) ==>
              r.active && !r.ledOnPhase && r.remaining == 3 && r.onMs == 150 && r.offMs == 150
    ensures !s.timerCreated && !createOk ==> r == s
  {
    Start(s, 3, 150, 150, createOk)
  }

  /** What the loop shows after a send: `led_pattern_tx` (three 80 ms blinks) on
      success, `led_pattern_error` (six 70 ms blinks) on failure. */
  function ShowResult(s: LedState, ok: bool, createOk: bool): (r: LedState)
    ensures ok && (s.timerCreated || createOk) ==> r.active && r.remaining == 3 && r.onMs == 80 && r.offMs == 80
    ensures !ok && (s.timerCreated || createOk) ==> r.active && r.remaining == 6 && r.onMs == 70 && r.offMs == 70
    ensures !s.timerCreated && !createOk ==> r == s
    ensures r.timerCreated == (s.timerCreated || createOk)
  {
    if ok then Start(s, 3, 80, 80, createOk) else Start(s, 6, 70, 70, createOk)
  }

  /** Once the pattern has ended no further expiry changes anything. */
  lemma {:induction false} StaysIdle(s: LedState, n: nat)
    requires s.armedUs.None?
    ensures FireN(s, n) == s
  {
    if n > 0 {
      StaysIdle(Fire(s), n - 1);
    }
  }

  /** After a start with `count > 0`, exactly `count` on/off pairs are shown (`2 * count`
      expiries with the pattern active and the timer armed), then the pattern is inactive
      and no timer is armed again. */
  lemma PatternCompletes(s: LedState, count: int, onMs: int, offMs: int, createOk: bool, extra: nat)
    requires count > 0 && (s.timerCreated || createOk)
    ensures var t := Start(s, count, onMs, offMs, createOk);
      && (forall k :: 0 <= k < 2 * count ==> FireN(t, k).active && FireN(t, k).armedUs.Some?)
      && !FireN(t, 2 * count).active && FireN(t, 2 * count).armedUs.None?
      && FireN(FireN(t, 2 * count), extra) == FireN(t, 2 * count)
  {
    var t := Start(s, count, onMs, offMs, createOk);
    Countdown(t, count);
    StaysIdle(FireN(t, 2 * count), extra);
  }

  /** The LED driver: `led_pat`, the pin and the `esp_timer` it arms. */
  class LedPattern {
    var remaining: int
    var onMs: int
    var offMs: int
    var active: bool
    var ledOnPhase: bool
    var ledOn: bool
    var timerCreated: bool
    var armedUs: Option<int>

    function Value(): LedState
      reads this
    {
      LedState(remaining, onMs, offMs, active, ledOnPhase, ledOn, timerCreated, armedUs)
    }

    /** `led_pat = {}` and `led_init`: all zero, the LED off, no timer yet. */
    constructor ()
      ensures Value() == LedState(0, 0, 0, false, false, false, false, None)
    {
      remaining, onMs, offMs := 0, 0, 0;
      active, ledOnPhase, ledOn, timerCreated := false, false, false, false;
      armedUs := None;
    }

    /** `led_pattern_start`; `createOk` is what `esp_timer_create` would return. */
    method LedPatternStart(count: int, on: int, off: int, createOk: bool)
      modifies this
      ensures Value() == Start(old(Value()), count, on, off, createOk)
    {
      if count <= 0 {
        return;
      }
      if !timerCreated {
        if !createOk {
          return;
        }
        timerCreated := true;
      }
      armedUs := None;
      remaining, onMs, offMs, active, ledOnPhase := count, on, off, true, false;
      armedUs := Some(1000);
    }

    /** `led_timer_cb`. */
    method LedTimerCb()
      modifies this
      ensures Value() == Callback(old(Value()))
    {
      if !active {
        return;
      }
      if ledOnPhase {
        ledOn := false;
        ledOnPhase := false;
        remaining := remaining - 1;
        if remaining <= 0 {
          active := false;
          return;
        }
        armedUs := Some(TimerUs(offMs));
      } else {
        ledOn := true;
        ledOnPhase := true;
        armedUs := Some(TimerUs(onMs));
      }
    }

    /** The timer task dispatching an expiry. */
    method Expire()
      modifies this
      ensures Value() == Fire(old(Value()))
    {
      if armedUs.None? {
        return;
      }
      armedUs := None;
      LedTimerCb();
    }
  }

  // ---------------------------------------------------------------------
  // The node

  /** The stored number plus one, 1 when nothing is stored. */
  function NextSeq(nvs: map<string, uint32>): (s: uint32)
    ensures SeqKey !in nvs ==> s == 1
    ensures SeqKey in nvs && nvs[SeqKey] as int < TWO32 - 1 ==> s as int == nvs[SeqKey] as int + 1
  {
    Wrap32((if SeqKey in nvs then nvs[SeqKey] else 0) as int + 1)
  }

  /** The NVS namespace and the LED driver. */
  class Ultra1Node {
    var nvs: map<string, uint32>
    const led: LedPattern

    /** The state after the static initialisers and the boot-time
        `led_pattern_searching()`; `createOk` is what `esp_timer_create` returns. */
    constructor (nvs0: map<string, uint32>, createOk: bool)
      ensures nvs == nvs0 && fresh(led)
      ensures led.Value() == Searching(LedState(0, 0, 0, false, false, false, false, None), createOk)
    {
      nvs := nvs0;
      led := new LedPattern();
      new;
      led.LedPatternStart(3, 150, 150, createOk);
    }

    /** One turn of the main loop. The echoes, the ADC sample, the station address, the
        send results and whether a timer can be created are what the drivers report. The
        number advances in NVS only on `ESP_OK`; the LED shows three quick blinks after a
        send and six after a failure. */
    method Cycle(echoes: seq<Ultrasonic.Echo>, vin: AdcSample, devMac: Mac, sendOk: seq<bool>, createOk: bool)
      returns (pkt: TelemetryPacket.SensorPacketV1, ok: bool)
      requires |echoes| == UltraSampleRetries
      modifies this, led
      ensures pkt == Ultra1Packet(devMac, NextSeq(old(nvs)),
                                  RangeClamp(ChooseDistance(Ultrasonic.Readings(echoes))), VinOrZero(ReadVinMv(vin)))
      ensures ok <==> SendResult(sendOk, 0) || SendResult(sendOk, 1)
      ensures ok ==> nvs == old(nvs)[SeqKey := NextSeq(old(nvs))]
      ensures !ok ==> nvs == old(nvs)
      ensures led.Value() == ShowResult(old(led.Value()), ok, createOk)
    {
      var stored: uint32 := if SeqKey in nvs then nvs[SeqKey] else 0;
      var seqNum := Wrap32(stored as int + 1);
      var readings, validReadings := SampleReadings(echoes);
      var distanceCm := SelectDistance(readings, validReadings);
      var vinMv := ReadVinMv(vin);
      if vinMv < 0 {
        vinMv := 0;
      }
      pkt := Ultra1Packet(devMac, seqNum, distanceCm, vinMv);
      var calls, delays;
      ok, calls, delays := EspnowSendPayload(sendOk);
      SendSucceedsIffOneTryDoes(sendOk, ok, calls);
      if ok {
        nvs := nvs[SeqKey := seqNum];
        led.LedPatternStart(3, 80, 80, createOk);
      } else {
        led.LedPatternStart(6, 70, 70, createOk);
      }
    }
  }
}

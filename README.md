# Aguada telemetry firmware — a Dafny model

Aguada measures water tanks. Battery-powered ESP32-C3 nodes fire an ultrasonic ranger,
turn the echo into a distance, turn the distance into a level, a percentage and a volume,
and send a packed 30-byte `SensorPacketV1` over ESP-NOW. A gateway (ESP32 DevKit V1)
receives the frame, overwrites the sender MAC, RSSI and timestamp with what the radio
says, filters on the packet version, and forwards a JSON rendering of it to the backend by
HTTP POST. An Arduino Nano variant keeps its network and tank settings in a
checksum-guarded EEPROM image.

This project models that telemetry path and proves properties of it:

* `LevelCalculator` (`level_calculator.dfy`): the level / percentage / volume arithmetic.
  It includes C's truncating division and the 64-bit volume product.
* `Ultrasonic` (`ultrasonic.dfy`): the pulse-to-centimetre rounding and timeouts of
  `measure_cm`, and the three-way median.
* `TelemetryPacket` (`telemetry_packet.dfy`): the shared packed wire layouts.
  - `SensorPacketV1`, `AckPacket`, `aguadaUltrasonic01Packet` and `GenericPacketHeader`
    are `seq<uint8>` encoders and decoders over the little-endian order that `memcpy`
    produces on both targets.
  - The generic key/value pair writers are methods on an `array<uint8>`.
* `GatewayPacket` (`gateway_packet.dfy`): the gateway's own copy of the packet header, and
  lemmas that it is byte-compatible with the node's copy.
* `NodeCieDual` (`node_cie_dual.dfy`): the dual-sensor node. It covers:
  - per-sensor anomaly detection (`SensorState`);
  - multi-gateway delivery with acknowledgement correlation (`CieNode`, `AckSlot`);
  - the persisted preferred gateway;
  - sequence numbers that are stored only after a delivery.
* `NodeUltra1` (`node_ultra1.dfy`): the single-sensor node. It covers:
  - the median-with-sentinel distance rule and the range clamp;
  - the two-try send;
  - the battery voltage reading;
  - the timer-driven LED pattern (`LedPattern`);
  - the main loop (`Ultra1Node`).
* `NodeUltra2` (`node_ultra2.dfy`): the two-sensor node. Its `measure_sensor` keeps a
  validity flag. It sends two packets per cycle and stores both sequence numbers whatever
  the send result.
* `Gateway` (`gateway.dfy`) with `JsonText` (`json_text.dfy`): the gateway.
  - The receive callback, the processing task and the HTTP worker are steps of one
    `GatewayNode` object with its metric counters and two bounded FIFO queues.
  - The JSON body and `mac_to_string` are rendered as text.
  - A small parser is defined to prove that the body can be read back.
* `ConfigManager` (`config_manager.dfy`): the 39-byte `DeviceConfig` EEPROM image. This
  covers:
  - its field decoding;
  - the 8-bit checksum;
  - `ConfigManager` with `begin`, `load`, `save`, `loadDefaults`, `calculateChecksum`,
    `setIP` and `setBackendIP`.
* `Bytes` (`bytes.dfy`), `Wrappers` and `Hardware` (`hardware.dfy`): fixed-width integer
  types, C narrowing casts, little-endian images and the radio send-result input.

Hardware is replaced by inputs:

* **Ultrasonic ranger:** an echo is given by its rise wait and pulse width (`Ultrasonic.Echo`).
* **ADC:** a reading is an `AdcSample`, which holds the unit handle, the read status, the
  raw value and the optional calibrated millivolts.
* **`esp_now_send`:** results are a `seq<bool>`, read through `Hardware.SendResult`.
* **Acknowledgement frames:** the frames that reach the node's receive callback while it
  polls are a sequence per send and per poll.
* **NVS:** a `map` from key to value.
* **EEPROM:** a 1024-byte `seq<uint8>`.
* **Gateway:** the timer value `esp_timer_get_time()` is a parameter, and so is the
  optional `rx_ctrl` RSSI. Wi-Fi events arrive as `WifiEvent` values.
* **Kalman filter:** the node CIE dual's filter output is an input sequence of estimates.

Where the firmware's comments, headers and code differ, the model follows the code:

* The fixed-size decoders check only the length, as `memcpy` does. Magic and version are
  checked where the code checks them: the ack callback checks magic and version, and
  the gateway's processing task checks the version.
* The gateway firmware (firmware/gateway_devkit_v1/main/main.c) sends no `AckPacket` and registers only the broadcast peer
  FF:FF:FF:FF:FF:FF, which the model leaves out. It always timestamps with boot
  milliseconds, never with wall-clock time.
* `GatewayNode` lets its task steps run with no HTTP queue; they then drop what
  they would have forwarded. The firmware never gets there, because `app_main` returns
  before starting the tasks when either queue cannot be created
  (firmware/gateway_devkit_v1/main/main.c:399-417), so the model is more general here.
* The generic `add_*_pair` writers do not refuse to pass the 250-byte ESP-NOW ceiling.
  Staying under it is their caller's precondition.
* `SensorPacketV1` is 30 bytes, although its comment says 28. `aguadaUltrasonic01Packet`
  is 12 bytes, although its comment says 13. The sizes are proved from the field layout.

## Model

| member | source | states |
|---|---|---|
| Bytes.Wrap32 | firmware/gateway_devkit_v1/main/main.c:186 | `uint32_t` narrowing: the value is kept when it is in range, and otherwise it is congruent modulo 2^32 |
| Bytes.Wrap8 | firmware/arduino/nano_ethernet_ultra/config_manager.h:106-112 | `uint8_t` narrowing: kept in range, otherwise congruent modulo 256 |
| Bytes.ToInt16 | firmware/node_ultra1/main/node_ultra1.cpp:453-457 | the `(int16_t)` cast: kept in range, otherwise congruent modulo 2^16 |
| Bytes.CDiv | firmware/components/level_calculator/level_calculator.h:25-26 | C's division: truncates toward zero, and the remainder is bounded by the divisor on the side of the dividend's sign |
| Bytes.Wrap32Succ | firmware/node_cie_dual/main/node_cie_dual.cpp:386-387 | incrementing a wrapped `uint32_t` is the same as wrapping after incrementing |
| Bytes.LE16RoundTrip | firmware/common/telemetry_packet.h:7-26 | decoding the little-endian image of a `uint16_t` gives it back |
| Bytes.U16OfInjective | firmware/common/telemetry_packet.h:7-26 | every two bytes are the image of the `uint16_t` decoded from them |
| Bytes.LE32RoundTrip | firmware/common/telemetry_packet.h:7-26 | decoding the little-endian image of a `uint32_t` gives it back |
| Bytes.U32OfInjective | firmware/common/telemetry_packet.h:7-26 | every four bytes are the image of the `uint32_t` decoded from them |
| Bytes.I16RoundTrip | firmware/common/telemetry_packet.h:7-26 | a two's complement `int16_t` survives its byte image |
| Bytes.I16OfInjective | firmware/common/telemetry_packet.h:7-26 | every two bytes are the image of the `int16_t` they decode to |
| Bytes.Int8RoundTrip | firmware/common/telemetry_packet.h:24 | an `int8_t` RSSI survives its byte |
| Bytes.Bits8OfSigned | firmware/common/telemetry_packet.h:24 | every byte is the image of the `int8_t` it decodes to |
| LevelCalculator.Clamp | firmware/components/level_calculator/level_calculator.h:22-23 | the result lies in `[lo, hi]`; it equals `x` inside the range and the nearer bound outside it |
| LevelCalculator.Compute | firmware/components/level_calculator/level_calculator.h:19-29 | `level_cm` is `level_max + offset - distance` clamped to `[0, level_max]`. `percentual` is in `[0, 100]` and is the truncated quotient `level*100 / level_max`. For a non-negative `vol_max`, `volume_l` is in `[0, vol_max]` and is the truncated `level*vol_max / level_max` |
| LevelCalculator.Volume | firmware/components/level_calculator/level_calculator.h:26 | the 64-bit volume quotient: within `[0, vol_max]`, truncated, and exactly `vol_max` at a full tank |
| LevelCalculator.ComputeMonotone | firmware/components/level_calculator/level_calculator.h:20-27 | a larger distance never gives a larger level or percentage, nor a larger volume when `vol_max` is non-negative |
| LevelCalculator.ComputeFull | firmware/components/level_calculator/level_calculator.h:20-27 | a distance at or below the sensor offset gives `{level_max, 100, vol_max}` |
| LevelCalculator.ComputeEmpty | firmware/components/level_calculator/level_calculator.h:20-27 | a distance at or beyond `level_max + offset` gives `{0, 0, 0}` |
| LevelCalculator.ReferenceTank | firmware/components/level_calculator/level_calculator.h:20-27 | for the tank `{450, 20, 80000}`, a distance of at most 20 gives `{450, 100, 80000}` and one of at least 470 gives `{0, 0, 0}` |
| LevelCalculator.FirmwareArithmeticFits | firmware/components/level_calculator/level_calculator.h:20-26 | for the shipped tanks and every distance the nodes pass, the `int` intermediates fit 32 bits and the product fits the 64-bit `int64_t` |
| Ultrasonic.MeasureCm | firmware/components/ultrasonic01/ultrasonic01.h:30-50 | the result is -1 iff either echo wait exceeds the timeout. Otherwise it is the non-negative `(pulse+29)/58`, the pulse in units of 58 µs rounded to nearest |
| Ultrasonic.ReadingBelowSentinel | firmware/components/ultrasonic01/ultrasonic01.h:17 | with the 300 ms default timeout, a reading never exceeds 5172 cm, so it stays below the nodes' 10000 sentinel |
| Ultrasonic.Readings | firmware/node_ultra1/main/node_ultra1.cpp:393-403 | one `measure_cm` result per echo, in order |
| Ultrasonic.Median3 | firmware/components/ultrasonic01/ultrasonic01.h:53-58 | the result is one of the arguments, lies between their minimum and maximum, and at least two arguments lie on each side of it |
| Ultrasonic.Median3Symmetric | firmware/components/ultrasonic01/ultrasonic01.h:53-57 | the result does not depend on the order of the arguments |
| Ultrasonic.Median3Majority | firmware/components/ultrasonic01/ultrasonic01.h:53-58 | a value present twice wins whatever the third argument is |
| TelemetryPacket.EncodeSensor | firmware/common/telemetry_packet.h:7-26 | 30 bytes with each field at its packed offset, multi-byte fields little-endian |
| TelemetryPacket.DecodeSensor | firmware/common/telemetry_packet.h:7-26 | decoding succeeds iff the frame is exactly 30 bytes |
| TelemetryPacket.SensorRoundTrip | firmware/common/telemetry_packet.h:7-26 | decode(encode(p)) == p |
| TelemetryPacket.SensorBytesRoundTrip | firmware/common/telemetry_packet.h:7-26 | every 30-byte frame decodes, and encoding the result gives the same bytes |
| TelemetryPacket.EncodeAck | firmware/common/telemetry_packet.h:40-49 | 11 bytes: magic, version, node id, the ack sequence number as little-endian, rssi, status, gateway id, reserved |
| TelemetryPacket.DecodeAck | firmware/common/telemetry_packet.h:40-49 | decoding succeeds iff the frame is exactly 11 bytes |
| TelemetryPacket.AckRoundTrip | firmware/common/telemetry_packet.h:40-55 | decode(encode(a)) == a |
| TelemetryPacket.AckBytesRoundTrip | firmware/common/telemetry_packet.h:40-49 | every 11-byte frame is the encoding of what it decodes to |
| TelemetryPacket.EncodeUltra01 | firmware/common/telemetry_packet.h:68-84 | 12 bytes with the packed field offsets |
| TelemetryPacket.DecodeUltra01 | firmware/common/telemetry_packet.h:68-84 | decoding succeeds iff the frame is exactly 12 bytes |
| TelemetryPacket.Ultra01RoundTrip | firmware/common/telemetry_packet.h:68-87 | decode(encode(p)) == p |
| TelemetryPacket.Ultra01BytesRoundTrip | firmware/common/telemetry_packet.h:68-84 | every 12-byte frame is the encoding of what it decodes to |
| TelemetryPacket.EncodeGenericHeader | firmware/common/telemetry_packet.h:161-176 | 19 bytes with the packed field offsets |
| TelemetryPacket.DecodeGenericHeader | firmware/common/telemetry_packet.h:161-176 | decoding succeeds iff the frame is exactly 19 bytes |
| TelemetryPacket.GenericHeaderRoundTrip | firmware/common/telemetry_packet.h:161-182 | decode(encode(h)) == h |
| TelemetryPacket.GenericHeaderBytesRoundTrip | firmware/common/telemetry_packet.h:161-182 | every 19-byte frame decodes to a header that re-encodes to the same bytes |
| TelemetryPacket.CappedLen | firmware/common/telemetry_packet.h:188-192 | the label length is `strlen` narrowed to `uint8_t` (mod 256) and then capped at 31 |
| TelemetryPacket.DataPairSize | firmware/common/telemetry_packet.h:188-192 | `3 + capped label length + value length`, at most 289 |
| TelemetryPacket.PairBytesLayout | firmware/common/telemetry_packet.h:149-156 | a pair is: label length, label bytes, type tag, value length, value bytes |
| TelemetryPacket.ParsePair | firmware/common/telemetry_packet.h:149-156 | a parsed pair's label and value fit in a byte length, and its remainder is shorter than the input |
| TelemetryPacket.PairRoundTrip | firmware/common/telemetry_packet.h:149-156 | parsing the bytes of a pair followed by anything gives back the capped label, the tag, the value and the rest |
| TelemetryPacket.CopyBytes | firmware/common/telemetry_packet.h:201-206 | `memcpy`: the target range holds the source, and everything else in the buffer is unchanged |
| TelemetryPacket.WritePair | firmware/common/telemetry_packet.h:195-210 | the pair's bytes are written at the start of the buffer, the returned offset is their count, and the rest of the buffer is unchanged |
| TelemetryPacket.AddInt32Pair | firmware/common/telemetry_packet.h:195-210 | returns `data_pair_size(label, 4)`, the prefix holds the pair with tag 0x05 and the little-endian value, and nothing beyond it is written |
| TelemetryPacket.AddUint32Pair | firmware/common/telemetry_packet.h:212-227 | as above with tag 0x06 |
| TelemetryPacket.AddFloatPair | firmware/common/telemetry_packet.h:229-244 | as above with tag 0x07 and the float's four bytes |
| TelemetryPacket.AddInt16Pair | firmware/common/telemetry_packet.h:246-261 | returns `data_pair_size(label, 2)` with tag 0x03 and the little-endian value, and nothing beyond it is written |
| TelemetryPacket.AddUint8Pair | firmware/common/telemetry_packet.h:263-277 | returns `data_pair_size(label, 1)` with tag 0x02 and the byte |
| TelemetryPacket.AddBoolPair | firmware/common/telemetry_packet.h:279-293 | returns `data_pair_size(label, 1)` with tag 0x08; true is written as the byte 1 and false as 0 |
| TelemetryPacket.AddStringPair | firmware/common/telemetry_packet.h:295-312 | the value is capped like the label, the returned size is at most 65, and the written prefix holds the capped value with tag 0x09 |
| GatewayPacket.EncodeSensor | firmware/gateway_devkit_v1/main/telemetry_packet.h:7-26 | the gateway's 30-byte layout with the same offsets |
| GatewayPacket.DecodeSensor | firmware/gateway_devkit_v1/main/telemetry_packet.h:7-26 | decoding succeeds iff the frame is exactly 30 bytes |
| GatewayPacket.EncodeAck | firmware/gateway_devkit_v1/main/telemetry_packet.h:40-49 | the gateway's 11-byte acknowledgement layout |
| GatewayPacket.NodeFrameDecodes | firmware/gateway_devkit_v1/main/telemetry_packet.h:7-26 | a frame encoded by a node decodes at the gateway to the same field values |
| GatewayPacket.GatewaySensorBytesRoundTrip | firmware/gateway_devkit_v1/main/telemetry_packet.h:7-26 | every 30-byte frame is the encoding of what the gateway decodes from it |
| GatewayPacket.SameSensorLayout | firmware/gateway_devkit_v1/main/telemetry_packet.h:7-26 | equal field values give equal bytes under both headers |
| GatewayPacket.GatewayAckDecodes | firmware/gateway_devkit_v1/main/telemetry_packet.h:40-49 | an acknowledgement encoded with the gateway header decodes at the node to the same fields |
| GatewayPacket.SharedConstantsAgree | firmware/gateway_devkit_v1/main/telemetry_packet.h:28-55 | the version, flag, alert, ack and size constants agree with the node header's |
| NodeCieDual.Abs | firmware/node_cie_dual/main/node_cie_dual.cpp:368-375 | `abs`: the result is `x` or `-x`, whichever is non-negative |
| NodeCieDual.MinutesSinceChange | firmware/node_cie_dual/main/node_cie_dual.cpp:351-352 | the `uint32_t` readings-times-30-over-60; exact when no counter has wrapped |
| NodeCieDual.Detect | firmware/node_cie_dual/main/node_cie_dual.cpp:337-380 | afterwards the state is initialised. `flags` is `FLAG_IS_ALERT` exactly when an alert type is set. The alert type is one of the four codes. The new state is either the old one or `(level, seq)` |
| NodeCieDual.DetectFirstReading | firmware/node_cie_dual/main/node_cie_dual.cpp:339-348 | on an uninitialised state the level and seq become the baseline, with no alert |
| NodeCieDual.DetectClassifies | firmware/node_cie_dual/main/node_cie_dual.cpp:350-378 | once initialised: rapid drop iff delta <= -50, rapid rise iff delta >= 50, stuck iff 120 minutes have passed and abs(delta) <= 2, and none otherwise. The baseline moves iff abs(delta) > 2 |
| NodeCieDual.StuckAfterTwoHours | firmware/node_cie_dual/main/node_cie_dual.cpp:351-372 | a level within 2 cm raises the stuck alert iff at least 240 readings have passed, and it leaves the state unchanged |
| NodeCieDual.SensorState.constructor | firmware/node_cie_dual/main/node_cie_dual.cpp:116-117 | starts as `{0, 0, false}` |
| NodeCieDual.SensorState.DetectAnomalies | firmware/node_cie_dual/main/node_cie_dual.cpp:337-380 | the state and both out-parameters become those of `Detect` |
| NodeCieDual.StoredSeq | firmware/node_cie_dual/main/node_cie_dual.cpp:157-166 | the stored value, or the default when the key is absent |
| NodeCieDual.LastGateway | firmware/node_cie_dual/main/node_cie_dual.cpp:177-186 | always a valid index; the stored one when it is below 3, and otherwise 0 |
| NodeCieDual.SetLastGateway | firmware/node_cie_dual/main/node_cie_dual.cpp:188-197 | a valid index is stored and an out-of-range index is ignored |
| NodeCieDual.LastGatewayRoundTrip | firmware/node_cie_dual/main/node_cie_dual.cpp:177-197 | reading after a write gives the index written if it was valid, and the previous value otherwise |
| NodeCieDual.Others | firmware/node_cie_dual/main/node_cie_dual.cpp:276-281 | the indices below `n` other than the preferred one |
| NodeCieDual.GwOrder | firmware/node_cie_dual/main/node_cie_dual.cpp:273-281 | three valid indices, the preferred one first |
| NodeCieDual.GwOrderValues | firmware/node_cie_dual/main/node_cie_dual.cpp:273-281 | the orders are exactly [0,1,2], [1,0,2] and [2,0,1] |
| NodeCieDual.GwOrderPermutation | firmware/node_cie_dual/main/node_cie_dual.cpp:273-281 | the order is a permutation of {0,1,2} whose last two entries are ascending |
| NodeCieDual.Round | firmware/node_cie_dual/main/node_cie_dual.cpp:284-296 | one pass sends to the configured gateways in order, at most once each |
| NodeCieDual.RoundStep | firmware/node_cie_dual/main/node_cie_dual.cpp:284-296 | the pass over one more gateway extends the previous pass by that gateway if it is configured |
| NodeCieDual.RoundMembers | firmware/node_cie_dual/main/node_cie_dual.cpp:289-296 | every gateway sent to is in the order and has a configured MAC, i.e. not all 0xFF |
| NodeCieDual.ConfiguredCount | firmware/node_cie_dual/main/node_cie_dual.cpp:89-94 | the number of configured gateways, at most 3 |
| NodeCieDual.Round3 | firmware/node_cie_dual/main/node_cie_dual.cpp:284-296 | a pass over three gateways is the concatenation of their picks |
| NodeCieDual.RoundCount | firmware/node_cie_dual/main/node_cie_dual.cpp:273-296 | a pass makes exactly one send per configured gateway, and the preferred gateway, if configured, comes first |
| NodeCieDual.ScheduleTwice | firmware/node_cie_dual/main/node_cie_dual.cpp:283-296 | the full schedule is the pass repeated for two attempts |
| NodeCieDual.ScheduleLength | firmware/node_cie_dual/main/node_cie_dual.cpp:283-296 | a call schedules exactly `2 x configured` sends, whichever gateway is preferred |
| NodeCieDual.ScheduleShape | firmware/node_cie_dual/main/node_cie_dual.cpp:283-296 | a call makes at most `2 x configured` sends, only to configured gateways, with the preferred one first |
| NodeCieDual.ShippedTableSchedule | firmware/node_cie_dual/main/node_cie_dual.cpp:89-94 | with the shipped MAC table, every schedule is gateway 0 twice |
| NodeCieDual.AcceptAck | firmware/node_cie_dual/main/node_cie_dual.cpp:252-262 | a frame is accepted iff it is 11 bytes with magic 0xAC and version 1; the stored ack is that frame decoded |
| NodeCieDual.Pow2 | firmware/node_cie_dual/main/node_cie_dual.cpp:326 | the backoff factor is at least 1 |
| NodeCieDual.Pow2Doubles | firmware/node_cie_dual/main/node_cie_dual.cpp:326 | the factor is 1 for the first attempt and doubles with each attempt, as `1 << attempt` does, so the two attempts back off 100 and 200 ms |
| NodeCieDual.CountValid | firmware/node_cie_dual/main/node_cie_dual.cpp:402-410 | it is zero iff no raw reading lies in [5, 450] |
| NodeCieDual.CieDistance | firmware/node_cie_dual/main/node_cie_dual.cpp:398-429 | -1 when no reading is valid. Otherwise the last filter estimate: kept when it lies in [5, 450], raised to 5 when it is non-negative and below 5, lowered to 450 when above 450, and passed through if negative |
| NodeCieDual.ReadVinMv | firmware/node_cie_dual/main/node_cie_dual.cpp:228-242 | -1 on a failed read, otherwise twice the calibrated millivolts, or twice the raw value without calibration |
| NodeCieDual.CiePacket | firmware/node_cie_dual/main/node_cie_dual.cpp:432-488 | version 1, node id, MAC, seq, rssi 0 and ts 0. A failed distance sends zero level, percentage and volume with `FLAG_IS_ALERT` and `SENSOR_STUCK` |
| NodeCieDual.CiePacketFaithful | firmware/node_cie_dual/main/node_cie_dual.cpp:432-488 | for valid distances the packet carries exactly the distance, `compute`'s figures, the clamped voltage and `detect_anomalies`' flags |
| NodeCieDual.NextSeq | firmware/node_cie_dual/main/node_cie_dual.cpp:386-387 | the stored number plus one, or 1 when nothing is stored |
| NodeCieDual.SeqAdvancesOnlyOnSuccess | firmware/node_cie_dual/main/node_cie_dual.cpp:492-496 | after storing, the next cycle uses the number plus one, and the other sensor's number is untouched |
| NodeCieDual.AckSlot.constructor | firmware/node_cie_dual/main/node_cie_dual.cpp:249-250 | no ack received at start |
| NodeCieDual.AckSlot.RecvCb | firmware/node_cie_dual/main/node_cie_dual.cpp:252-262 | an accepted frame is stored and raises `ack_received`; any other frame changes nothing |
| NodeCieDual.AckWithinPollsSome | firmware/node_cie_dual/main/node_cie_dual.cpp:307-316 | checking the polls one by one finds a match within `n` polls iff some poll among the first `n` is preceded by an accepted ack for this seq and node id |
| NodeCieDual.AckSlot.WaitForAck | firmware/node_cie_dual/main/node_cie_dual.cpp:308-316 | matched iff one of the 50 polls is preceded by an accepted ack for this seq and node id; `at` is the first such poll, and then `last_ack` is that ack |
| NodeCieDual.AckSlot.SendAndWait | firmware/node_cie_dual/main/node_cie_dual.cpp:301-316 | the flag is cleared before the send; matched iff the send returned ESP_OK and a matching ack arrived during the wait |
| NodeCieDual.CieNode.constructor | firmware/node_cie_dual/main/node_cie_dual.cpp:116-122 | zero counters, uninitialised sensor states, no ack and the shipped MAC table |
| NodeCieDual.CieNode.NvsSetLastGateway | firmware/node_cie_dual/main/node_cie_dual.cpp:188-197 | only the stored gateway changes, as `SetLastGateway` says |
| NodeCieDual.CieNode.TryGateway | firmware/node_cie_dual/main/node_cie_dual.cpp:285-316 | a send is tried iff the gateway is configured; matched iff it is tried, the send returned ESP_OK and a matching ack arrived |
| NodeCieDual.CieNode.RecordSuccess | firmware/node_cie_dual/main/node_cie_dual.cpp:310-312 | `successful_acks` is incremented, and the gateway is persisted and remembered |
| NodeCieDual.CieNode.GatewayStep | firmware/node_cie_dual/main/node_cie_dual.cpp:285-316 | one gateway of a pass: it is addressed iff configured, and then as the next send. Unmatched, no send of the pass so far succeeded and each send was followed by one pause of the attempt's length. Matched, this send succeeded, it had no pause after it, and the pass so far is a prefix of the full pass |
| NodeCieDual.CieNode.SendPass | firmware/node_cie_dual/main/node_cie_dual.cpp:284-327 | an unmatched pass sends to every configured gateway of the order, with one backoff of `100 << attempt` after each, and none of its tries succeeded. A matched pass stops at its first successful try, a prefix of the pass |
| NodeCieDual.CieNode.RunAttempts | firmware/node_cie_dual/main/node_cie_dual.cpp:283-328 | matched iff some try of the two passes succeeds. The sends stop at the first such try and are a prefix of the pass repeated twice; with no match they are the whole schedule. Backoffs are 100 or 200 ms |
| NodeCieDual.CieNode.EspnowSendPayload | firmware/node_cie_dual/main/node_cie_dual.cpp:269-335 | `total_attempts` is incremented. ESP_OK iff some send of `Schedule(last gateway)` returns ESP_OK and is followed by a matching ack; the sends stop at the first such one. On success that gateway is persisted and `successful_acks` incremented; on failure the whole schedule was sent and nothing is persisted |
| NodeCieDual.CieNode.MeasureAndSendSensor | firmware/node_cie_dual/main/node_cie_dual.cpp:382-502 | the packet is `CiePacket` of the stored seq plus one and of the filtered distance. The result is ESP_OK iff one of the `2 x configured` scheduled sends returns ESP_OK and is followed by an ack for that seq and node id. `total_attempts` grows by one. The seq is persisted iff the result is ESP_OK. The detector state moves as `Detect` says for a valid distance, and is untouched otherwise |
| NodeCieDual.CieNode.SendAndPersist | firmware/node_cie_dual/main/node_cie_dual.cpp:491-500 | ESP_OK iff some scheduled send is followed by a matching ack; the seq is stored under its key iff ESP_OK, and `total_attempts` grows by one |
| NodeCieDual.CieNode.Cycle | firmware/node_cie_dual/main/node_cie_dual.cpp:581-598 | sensor 1 (node 4, key "seq1") and then sensor 2 (node 5, key "seq2"). Each result is ESP_OK iff one of its own scheduled sends meets a matching ack, and each key advances only on its own success. Each detector state moves on its own echoes, and `total_attempts` grows by two |
| NodeCieDual.BuildSensorPacket | firmware/node_cie_dual/main/node_cie_dual.cpp:394-488 | the packet is `CiePacket`, and the sensor state changes only for a valid distance, as `Detect` says |
| NodeCieDual.NextAnomaly | firmware/node_cie_dual/main/node_cie_dual.cpp:446-471 | a failed distance keeps the detector state; a valid one leaves it initialised, either unchanged or with the baseline moved at this seq |
| NodeCieDual.IsConfigured | firmware/node_cie_dual/main/node_cie_dual.cpp:289-296 | true iff some MAC byte is not 0xFF |
| NodeCieDual.BuildOrder | firmware/node_cie_dual/main/node_cie_dual.cpp:274-281 | the `gw_order` loop computes `GwOrder` |
| NodeCieDual.MeasureDistance | firmware/node_cie_dual/main/node_cie_dual.cpp:398-429 | the sampling loop computes `CieDistance` |
| NodeCieDual.RoundPrefix | firmware/node_cie_dual/main/node_cie_dual.cpp:284-296 | stopping early in a pass sends a prefix of the pass |
| NodeCieDual.RepeatPrefix | firmware/node_cie_dual/main/node_cie_dual.cpp:283 | fewer attempts send a prefix of more attempts |
| NodeCieDual.PassPrefix | firmware/node_cie_dual/main/node_cie_dual.cpp:283-296 | completed attempts followed by part of a pass are a prefix of the full schedule |
| NodeUltra1.ReadVinMv | firmware/node_ultra1/main/node_ultra1.cpp:95-113 | -1 with no handle or a failed read; otherwise twice the calibrated millivolts, or twice `(raw*3300)/4095` |
| NodeUltra1.FallbackVin | firmware/node_ultra1/main/node_ultra1.cpp:106-111 | for 12-bit raw values the uncalibrated reading is in [0, 6600], within 2 mV of the exact `raw*6600/4095`, and monotone in raw |
| NodeUltra1.VinOrZero | firmware/node_ultra1/main/node_ultra1.cpp:429-433 | a failed reading (-1) becomes 0, and other voltages are kept |
| NodeUltra1.Timeouts | firmware/node_ultra1/main/node_ultra1.cpp:393-403 | the number of timed-out readings, at most the number taken |
| NodeUltra1.RangeClamp | firmware/node_ultra1/main/node_ultra1.cpp:422-426 | the result lies in [5, 450]: kept inside the range, otherwise the nearer bound |
| NodeUltra1.Timeouts3 | firmware/node_ultra1/main/node_ultra1.cpp:393-403 | the count over three readings, one per timeout |
| NodeUltra1.FailureIffTwoTimeouts | firmware/node_ultra1/main/node_ultra1.cpp:406-418 | the distance is -1 iff at least two of the three readings timed out; otherwise it is a reading |
| NodeUltra1.OneTimeoutTakesLarger | firmware/node_ultra1/main/node_ultra1.cpp:410-418 | with exactly one timeout the distance is the larger of the two valid readings |
| NodeUltra1.NoTimeoutTakesMedian | firmware/node_ultra1/main/node_ultra1.cpp:410-418 | with no timeout the distance is the median of the three readings |
| NodeUltra1.ReadingsWellFormed | firmware/components/ultrasonic01/ultrasonic01.h:30-50 | every reading is -1 or in [0, 9999] |
| NodeUltra1.SampleReadings | firmware/node_ultra1/main/node_ultra1.cpp:388-403 | the loop stores the three readings and counts the valid ones |
| NodeUltra1.SelectDistance | firmware/node_ultra1/main/node_ultra1.cpp:405-426 | the code computes the clamped median-with-sentinel choice of the readings |
| NodeUltra1.Ultra1Packet | firmware/node_ultra1/main/node_ultra1.cpp:445-459 | version 1, node id 1, the device MAC, the seq, flags and alert 0, rssi and ts 0 |
| NodeUltra1.Ultra1PacketFaithful | firmware/node_ultra1/main/node_ultra1.cpp:435-459 | for clamped distances and real voltages the packet carries exactly the distance, `compute`'s figures and the voltage |
| NodeUltra1.TotalFailureReadsFull | firmware/node_ultra1/main/node_ultra1.cpp:404-459 | two or more timeouts are sent as 5 cm: a full tank (450 cm, 100 %, 80000 L) with flags 0 |
| NodeUltra1.EspnowSendPayload | firmware/node_ultra1/main/node_ultra1.cpp:139-148 | at most two calls, stopping at the first success, with a 200 ms delay after each failure |
| NodeUltra1.SendSucceedsIffOneTryDoes | firmware/node_ultra1/main/node_ultra1.cpp:139-148 | the send succeeds iff the first or the second try does |
| NodeUltra1.TimerUs | firmware/node_ultra1/main/node_ultra1.cpp:189-193 | `(uint64_t)ms * 1000ULL`: exact when it fits, otherwise wrapped modulo 2^64 |
| NodeUltra1.Start | firmware/node_ultra1/main/node_ultra1.cpp:197-215 | a count of 0 or less changes nothing. Otherwise, once the timer exists, the pattern is `{count, on, off, active, off-phase}` with 1 ms armed |
| NodeUltra1.Fire | firmware/node_ultra1/main/node_ultra1.cpp:178-195 | with no timer armed nothing happens |
| NodeUltra1.Countdown | firmware/node_ultra1/main/node_ultra1.cpp:178-195 | from an armed off-phase with `r` blinks left, the next `2r - 1` expiries keep the pattern active and armed. After `2r` it is inactive, dark and unarmed |
| NodeUltra1.Searching | firmware/node_ultra1/main/node_ultra1.cpp:217-219 | once the timer exists, three 150 ms blinks start in the off phase; with no timer nothing changes |
| NodeUltra1.ShowResult | firmware/node_ultra1/main/node_ultra1.cpp:221-227 | a success starts the tx pattern (3 x 80/80 ms) and a failure the error pattern (6 x 70/70 ms) |
| NodeUltra1.StaysIdle | firmware/node_ultra1/main/node_ultra1.cpp:178-180 | with no timer armed, expiries change nothing |
| NodeUltra1.PatternCompletes | firmware/node_ultra1/main/node_ultra1.cpp:178-215 | a started pattern ends after exactly `count` on/off blinks and then stays idle |
| NodeUltra1.LedPattern.constructor | firmware/node_ultra1/main/node_ultra1.cpp:175-176 | an all-zero pattern and no timer |
| NodeUltra1.LedPattern.LedPatternStart | firmware/node_ultra1/main/node_ultra1.cpp:197-215 | the state becomes `Start` of the old state |
| NodeUltra1.LedPattern.LedTimerCb | firmware/node_ultra1/main/node_ultra1.cpp:178-195 | the state becomes `Callback` of the old state |
| NodeUltra1.LedPattern.Expire | firmware/node_ultra1/main/node_ultra1.cpp:178-195 | an armed one-shot timer fires: the state becomes `Fire` of the old state |
| NodeUltra1.NextSeq | firmware/node_ultra1/main/node_ultra1.cpp:384-387 | the stored number plus one, or 1 when nothing is stored |
| NodeUltra1.Ultra1Node.constructor | firmware/node_ultra1/main/node_ultra1.cpp:175-218 | the given NVS, and the LED pattern that `led_pattern_searching` starts at boot from the zero-initialised `led_pat` |
| NodeUltra1.Ultra1Node.Cycle | firmware/node_ultra1/main/node_ultra1.cpp:382-474 | the packet is built from the next seq, the clamped distance and the voltage. The send succeeds iff one of two tries does. The seq is stored iff it succeeds. The LED shows the result |
| NodeUltra2.MeasureSensor | firmware/node_ultra2/main/node_ultra2.cpp:303-343 | `valid_samples` counts the valid readings. Two or more timeouts give `{-1, false}`. Otherwise the value is the clamped median, and `valid` holds iff the median lies in [5, 450] |
| NodeUltra2.UsedDistance | firmware/node_ultra2/main/node_ultra2.cpp:384 | the valid value, or 5 cm for an invalid result |
| NodeUltra2.ReportedDistance | firmware/node_ultra2/main/node_ultra2.cpp:384 | the distance sent is always within [5, 450]: the chosen median when that is in range, 5 cm otherwise |
| NodeUltra2.InvalidReadsFull | firmware/node_ultra2/main/node_ultra2.cpp:324-340 | a median above 450 is clamped to 450 but reported invalid, so it is sent as 5 cm |
| NodeUltra2.ComputeValues | firmware/node_ultra2/main/node_ultra2.cpp:345-355 | distance and vin pass through unchanged, and level, percentage and volume are `compute` with `{450, 20, 245000}` |
| NodeUltra2.Ultra2Packet | firmware/node_ultra2/main/node_ultra2.cpp:392-406 | version 1, node id 2, the given MAC and seq, flags and alert 0, rssi and ts 0 |
| NodeUltra2.Ultra2PacketFaithful | firmware/node_ultra2/main/node_ultra2.cpp:390-406 | for in-range distances the narrowing casts lose nothing |
| NodeUltra2.StoredSeq | firmware/node_ultra2/main/node_ultra2.cpp:379-380 | the stored number, or 0 when nothing is stored |
| NodeUltra2.Ultra2Node.constructor | firmware/node_ultra2/main/node_ultra2.cpp:183-226 | the given NVS, and the LED pattern that `led_pattern_searching` starts at boot from the zero-initialised `led_pat` |
| NodeUltra2.Ultra2Node.SendSensor | firmware/node_ultra2/main/node_ultra2.cpp:383-419 | one sensor's measurement, values and packet, the two-try send and the LED result. The packet carries the distance reported for this sensor's own echoes. The seq is stored whatever the result |
| NodeUltra2.Ultra2Node.Cycle | firmware/node_ultra2/main/node_ultra2.cpp:378-453 | A carries stored+1, the device MAC and the distance from A's echoes. B carries stored+2, AA:BB:CC:DD:EE:C2 and the distance from B's echoes. Both carry A's voltage and node id 2. stored+2 is persisted |
| JsonText.NatToString | firmware/gateway_devkit_v1/main/main.c:120-132 | `%u`: at least one digit and only digits |
| JsonText.IntToString | firmware/gateway_devkit_v1/main/main.c:120-132 | `%d`: at least one character |
| JsonText.LeadingDigits | firmware/gateway_devkit_v1/main/main.c:120-132 | the longest prefix of digits |
| JsonText.ParseInt | firmware/gateway_devkit_v1/main/main.c:120-132 | a parse consumes at least one character |
| JsonText.NatToStringValue | firmware/gateway_devkit_v1/main/main.c:120-132 | the digits of `n` have value `n` |
| JsonText.IntRoundTrip | firmware/gateway_devkit_v1/main/main.c:120-132 | a number rendered with `%d` is read back, followed by the rest of the text |
| JsonText.NatToStringLength | firmware/gateway_devkit_v1/main/main.c:120-132 | a number below `10^k` has at most `k` digits |
| JsonText.Hex2 | firmware/gateway_devkit_v1/main/main.c:88-91 | `%02X`: two uppercase hex digits |
| JsonText.HexGroups | firmware/gateway_devkit_v1/main/main.c:88-91 | n bytes as hex pairs joined by ':', `3n - 1` characters |
| JsonText.MacToString | firmware/gateway_devkit_v1/main/main.c:88-91 | exactly 17 characters |
| JsonText.HexGroupsShape | firmware/gateway_devkit_v1/main/main.c:88-91 | every third character is ':' and the others are uppercase hex digits |
| JsonText.MacRoundTrip | firmware/gateway_devkit_v1/main/main.c:88-91 | the MAC text determines the MAC: parsing it gives the bytes back |
| JsonText.HexGroupsRoundTrip | firmware/gateway_devkit_v1/main/main.c:88-91 | parsing joined hex groups gives the bytes back |
| JsonText.RenderObject | firmware/gateway_devkit_v1/main/main.c:120-124 | a JSON object text that starts with '{' and ends with '}' |
| JsonText.ObjectRoundTrip | firmware/gateway_devkit_v1/main/main.c:120-124 | parsing the rendered object gives back its members, in order, for keys and strings without quotes |
| JsonText.MembersRoundTrip | firmware/gateway_devkit_v1/main/main.c:120-124 | comma-separated members followed by '}' parse back to the member list |
| JsonText.MemberRoundTrip | firmware/gateway_devkit_v1/main/main.c:120-124 | one `"key":value` member parses back before a ',' or '}' |
| JsonText.ValueRoundTrip | firmware/gateway_devkit_v1/main/main.c:120-124 | a number or quoted string parses back before a ',' or '}' |
| JsonText.MembersLength | firmware/gateway_devkit_v1/main/main.c:120-124 | the length of the rendered members is the sum of their widths plus the commas |
| Gateway.Enrich | firmware/gateway_devkit_v1/main/main.c:177-186 | source and payload MAC become the radio sender, rssi comes from `rx_ctrl` when present, and `ts_ms` is boot-ms modulo 2^32 |
| Gateway.EnrichKeepsBytes | firmware/gateway_devkit_v1/main/main.c:177-186 | every payload byte outside mac, rssi and ts_ms is unchanged, byte for byte |
| Gateway.PacketMembers | firmware/gateway_devkit_v1/main/main.c:120-132 | eleven members |
| Gateway.KeysPlain | firmware/gateway_devkit_v1/main/main.c:122-123 | no key contains a quote |
| Gateway.HttpBody | firmware/gateway_devkit_v1/main/main.c:120-136 | a body, when produced, is non-empty and shorter than the 256-byte buffer |
| Gateway.MacTextPlain | firmware/gateway_devkit_v1/main/main.c:88-91 | MAC text contains no quote |
| Gateway.PacketJsonRoundTrip | firmware/gateway_devkit_v1/main/main.c:120-132 | the body parses as a JSON object with keys version, node_id, mac, seq, distance_cm, level_cm, percentual, volume_l, vin_mv, rssi and ts_ms, in that order |
| Gateway.RenderedFieldsDetermined | firmware/gateway_devkit_v1/main/main.c:120-132 | two packets with the same body agree on every field except flags and alert_type |
| Gateway.RenderDeterminesPacket | firmware/gateway_devkit_v1/main/main.c:120-132 | two bodies are equal iff the packets agree on everything but flags and alert_type |
| Gateway.ValueWidths | firmware/gateway_devkit_v1/main/main.c:120-132 | the widest rendering of each field: 3, 10, 6 or 4 characters |
| Gateway.IntWidth | firmware/gateway_devkit_v1/main/main.c:127-129 | an `int16_t` renders in at most 6 characters |
| Gateway.MemberWidths | firmware/gateway_devkit_v1/main/main.c:120-132 | the members' widths are bounded field by field |
| Gateway.JsonAlwaysFits | firmware/gateway_devkit_v1/main/main.c:120-137 | every body is at most 197 characters, so the truncation branch never fires |
| Gateway.GatewayNode.constructor | firmware/gateway_devkit_v1/main/main.c:399-417 | zero counters and empty queues. The HTTP queue exists only if the ESP-NOW queue was created |
| Gateway.GatewayNode.RecvCb | firmware/gateway_devkit_v1/main/main.c:165-199 | no info or no queue changes nothing. A wrong length counts a parse error. A right length is enriched and counted as received, and enqueued iff the queue has room |
| Gateway.GatewayNode.CountLengthError | firmware/gateway_devkit_v1/main/main.c:171-175 | `parse_errors` is incremented, and nothing else changes |
| Gateway.GatewayNode.CountAndEnqueue | firmware/gateway_devkit_v1/main/main.c:188-194 | `packets_received` is always incremented; the packet is appended iff fewer than 20 are queued |
| Gateway.GatewayNode.ProcessStep | firmware/gateway_devkit_v1/main/main.c:201-255 | takes the oldest packet. Version 1 counts as parsed and is forwarded iff the HTTP queue exists and has room; any other version counts a parse error |
| Gateway.GatewayNode.TakeParsed | firmware/gateway_devkit_v1/main/main.c:216-241 | the version-1 branch: dequeue, count the packet as parsed, and forward it without blocking |
| Gateway.GatewayNode.TakeBadVersion | firmware/gateway_devkit_v1/main/main.c:243-245 | the other branch: dequeue and count a parse error |
| Gateway.GatewayNode.HttpWorkerStep | firmware/gateway_devkit_v1/main/main.c:382-397 | takes the oldest packet. Without an IP it is dropped with no body; with an IP its JSON body is posted |
| Gateway.GatewayNode.OnWifiEvent | firmware/gateway_devkit_v1/main/main.c:101-116 | a disconnect clears `wifi_got_ip`, got-IP sets it, and the other events keep it |
| ConfigManager.Image | firmware/arduino/nano_ethernet_ultra/config_manager.h:10-38 | the packed image is 39 bytes |
| ConfigManager.ImageRoundTrip | firmware/arduino/nano_ethernet_ultra/config_manager.h:10-38 | decoding the image of a configuration gives it back |
| ConfigManager.DecodeRoundTrip | firmware/arduino/nano_ethernet_ultra/config_manager.h:10-38 | every 39-byte image is the image of what it decodes to |
| ConfigManager.ByteSumAppend | firmware/arduino/nano_ethernet_ultra/config_manager.h:109-111 | the sum over a concatenation is the sum of the sums |
| ConfigManager.WithChecksum | firmware/arduino/nano_ethernet_ultra/config_manager.h:71 | only the checksum byte changes |
| ConfigManager.Stamp | firmware/arduino/nano_ethernet_ultra/config_manager.h:68-72 | `save`'s stamping keeps the image length |
| ConfigManager.ChecksumIgnoresChecksumByte | firmware/arduino/nano_ethernet_ultra/config_manager.h:105-113 | the checksum does not depend on the stored checksum byte |
| ConfigManager.WithChecksumValid | firmware/arduino/nano_ethernet_ultra/config_manager.h:56-71 | with the magic in place, storing the computed checksum makes the image valid and leaves the other bytes alone |
| ConfigManager.StampValid | firmware/arduino/nano_ethernet_ultra/config_manager.h:68-73 | after `save` the image loads, carries version 1, and keeps every settings byte |
| ConfigManager.StampFixedPoints | firmware/arduino/nano_ethernet_ultra/config_manager.h:52-73 | `save` leaves an image unchanged iff it already loads and has version 1 |
| ConfigManager.LoadIgnoresVersion | firmware/arduino/nano_ethernet_ultra/config_manager.h:52-66 | an image with any version byte loads as long as magic and checksum match |
| ConfigManager.SingleByteChangeDetected | firmware/arduino/nano_ethernet_ultra/config_manager.h:52-66 | changing any one byte of a valid image other than the checksum makes `load` fail |
| ConfigManager.DefaultImage | firmware/arduino/nano_ethernet_ultra/config_manager.h:75-103 | the defaults image is 39 bytes |
| ConfigManager.DefaultsValid | firmware/arduino/nano_ethernet_ultra/config_manager.h:75-103 | the defaults load and are not changed by `save`. They are node 3, offset 20, height 450, volume 80000, post 30000 ms, print 1000 ms, 3 samples and a 100 ms delay |
| ConfigManager.DefaultsSum | firmware/arduino/nano_ethernet_ultra/config_manager.h:75-113 | the defaults' checksum is 0x6F |
| ConfigManager.ChecksumOfFields | firmware/arduino/nano_ethernet_ultra/config_manager.h:105-113 | the checksum is the byte sum of the fields modulo 256 |
| ConfigManager.SetQuad | firmware/arduino/nano_ethernet_ultra/config_manager.h:132-138 | four bytes replaced at an offset; the length is kept |
| ConfigManager.SetIpOnlyChangesIp | firmware/arduino/nano_ethernet_ultra/config_manager.h:132-134 | `setIP` changes the `ip` field and no other |
| ConfigManager.SetBackendIpOnlyChangesBackendIp | firmware/arduino/nano_ethernet_ultra/config_manager.h:136-138 | `setBackendIP` changes the `backend_ip` field and no other |
| ConfigManager.SetterChecksum | firmware/arduino/nano_ethernet_ultra/config_manager.h:132-138 | after a setter, a valid image still loads iff the new four bytes have the same sum modulo 256 as the old ones; the checksum is stale otherwise |
| ConfigManager.SaveAfterSetter | firmware/arduino/nano_ethernet_ultra/config_manager.h:68-73 | saving after a setter gives a valid image that holds the new address |
| ConfigManager.ConfigManager.constructor | firmware/arduino/nano_ethernet_ultra/config_manager.h:42 | a zeroed configuration over the given EEPROM |
| ConfigManager.ConfigManager.CalculateChecksum | firmware/arduino/nano_ethernet_ultra/config_manager.h:105-113 | the loop returns the 8-bit sum of the first 38 bytes |
| ConfigManager.ConfigManager.Load | firmware/arduino/nano_ethernet_ultra/config_manager.h:52-66 | the configuration becomes the stored image, and the result is true iff magic and checksum match |
| ConfigManager.ConfigManager.Save | firmware/arduino/nano_ethernet_ultra/config_manager.h:68-73 | the configuration and the EEPROM's first 39 bytes become the stamped image, and the rest of the EEPROM is unchanged |
| ConfigManager.ConfigManager.LoadDefaults | firmware/arduino/nano_ethernet_ultra/config_manager.h:75-103 | the configuration becomes the defaults image |
| ConfigManager.ConfigManager.Begin | firmware/arduino/nano_ethernet_ultra/config_manager.h:44-50 | afterwards the configuration is valid and stored. A valid stored image is kept as it is; otherwise the defaults are written |
| ConfigManager.ConfigManager.SetIP | firmware/arduino/nano_ethernet_ultra/config_manager.h:132-134 | the IP bytes are replaced and the EEPROM is untouched |
| ConfigManager.ConfigManager.SetBackendIP | firmware/arduino/nano_ethernet_ultra/config_manager.h:136-138 | the backend IP bytes are replaced and the EEPROM is untouched |

## Left out

- **The Kalman filter** of the node CIE dual is not part of this model. It uses floating
  point and its class is not among the modelled files, so its estimates are an input
  sequence.
- **Floating point:**
  - the success-rate logs of the node CIE dual;
  - the IEEE-754 encoding inside `add_float_pair`: the float's four bytes are an input,
    `AddFloatPair.valueBits`.
- **Concurrency:**
  - The gateway's FreeRTOS tasks and queues are sequential steps of one object.
  - The node CIE dual's ack callback, which runs during the polling loop, is applied
    before each poll.
  - Interleavings beyond those steps are not modelled.
- **Real time:**
  - `vTaskDelay`, `esp_timer` periods, the 30 s main-loop waits and the 1 s receive
    timeout are not modelled.
  - Backoff and retry delays are recorded as sequences of milliseconds.
  - LED timer expiries are explicit `Expire` steps.
- **Pins and drivers:**
  - GPIO writes (LED and ranger trigger) and the busy-wait echo loops: an echo is given
    by its two durations.
  - ADC set-up and calibration, hardware and Wi-Fi / ESP-NOW initialisation, and peer
    registration.
  - `nvs_open` failures: reads return the stored value or the default; writes always
    land.
  - EEPROM wear.
- **Output:** `ESP_LOG*`, `printf` (including the gateway's `TELEMETRY:` serial line) and
  `printConfig`. The HTTP client transport and its status code are also left out; the
  worker step returns the body it would post.
- **EEPROM address:** `ConfigManager` always uses `CONFIG_EEPROM_ADDR` (0); other
  addresses are not modelled.
- **Config getters:** `getIPAddress`, `getGateway`, `getSubnet` and `getBackendIP` only
  wrap the decoded fields `ip`, `gateway`, `subnet` and `backendIp` in an `IPAddress`.
- **Generic packets:** the example program that builds them, and any generic-packet
  decoder, are not part of the firmware modelled. `ParsePair` exists only to state the
  pair round trip.
- **The 250-byte ceiling** (`MAX_GENERIC_PACKET_SIZE`) is never checked by the writers: a
  buffer long enough for the pair is their precondition, as it is in the code.
- **The backend** (PHP ingest and dashboards) is not part of this model.
- TelemetryPacket.AddStringPair: requires a NUL-terminated value, as `strlen` does. It
  takes the value as a byte sequence without the terminator.
- NodeCieDual.CieDistance: a negative filter estimate is passed through unclamped, because
  the code's range check applies only to non-negative distances. Such an estimate is then
  sent like a total failure: zero figures, `FLAG_IS_ALERT` and `SENSOR_STUCK`, with the
  estimate as the distance.

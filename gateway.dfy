/** The gateway's receive pipeline (gateway_devkit_v1/main/main.c): the ESP-NOW receive
    callback validates the frame length, overwrites the sender MAC, RSSI and timestamp,
    and queues the packet; the processing task filters on the version and forwards to
    the HTTP queue; the HTTP worker drops packets while there is no IP address and
    otherwise renders the JSON body it posts. The FreeRTOS tasks become one method per
    loop iteration over explicit queues. */
module Gateway {
  import opened Bytes
  import opened Wrappers
  import GatewayPacket
  import JsonText

  /** Both queues are created with 20 slots. */
  const QueueLength: nat := 20
  /** `char json[256]` in `http_post_packet`. */
  const JsonBufferSize: nat := 256

  /** What `esp_now_recv_info_t` supplies: the sender address and, when `rx_ctrl` is
      present, the RSSI it measured. */
  datatype RecvInfo = RecvInfo(srcAddr: Mac, rxRssi: Option<int8>)

  /** `espnow_packet_t`: the sender address alongside the enriched packet. */
  datatype QueuedPacket = QueuedPacket(srcAddr: Mac, data: GatewayPacket.SensorPacketV1)

  /** The events `wifi_event_handler` reacts to. */
  datatype WifiEvent = StaDisconnected | StaConnected | StaGotIp

  /** The enrichment of an accepted frame: the payload as received, but with the MAC
      replaced by the radio sender, the RSSI by the measured one when there is one, and
      the timestamp by the boot time in milliseconds truncated to 32 bits. */
  function Enrich(info: RecvInfo, frame: seq<uint8>, nowUs: nat): (q: QueuedPacket)
    requires |frame| == GatewayPacket.SensorPacketSize
    ensures q.srcAddr == info.srcAddr && q.data.mac == info.srcAddr
    ensures info.rxRssi.Some? ==> q.data.rssi == info.rxRssi.value
    ensures q.data.tsMs as int == (nowUs / 1000) % TWO32
  {
    var d := GatewayPacket.DecodeSensor(frame).value;
    var rssi := if info.rxRssi.Some? then info.rxRssi.value else d.rssi;
    QueuedPacket(info.srcAddr, d.(mac := info.srcAddr, rssi := rssi, tsMs := Wrap32(nowUs / 1000)))
  }

  /** Outside the MAC, the RSSI byte (when the radio reported one) and the timestamp,
      the queued packet is byte for byte the frame that arrived. */
  lemma EnrichKeepsBytes(info: RecvInfo, frame: seq<uint8>, nowUs: nat)
    requires |frame| == GatewayPacket.SensorPacketSize
    ensures var e := GatewayPacket.EncodeSensor(Enrich(info, frame, nowUs).data);
      && e[..2] == frame[..2] && e[2..8] == info.srcAddr && e[8..25] == frame[8..25]
      && (info.rxRssi.None? ==> e[25] == frame[25])
      && (info.rxRssi.Some? ==> e[25] == Bits8(info.rxRssi.value))
      && e[26..30] == LE32(Wrap32(nowUs / 1000))
  {
    GatewayPacket.GatewaySensorBytesRoundTrip(frame);
    var d := GatewayPacket.DecodeSensor(frame).value;
    var e := GatewayPacket.EncodeSensor(Enrich(info, frame, nowUs).data);
    var f := GatewayPacket.EncodeSensor(d);
    assert e[8..12] == f[8..12] && e[12..14] == f[12..14] && e[14..16] == f[14..16];
    assert e[17..21] == f[17..21] && e[21..23] == f[21..23];
    assert e[8..25] == e[8..12] + e[12..14] + e[14..16] + [e[16]] + e[17..21] + e[21..23] + [e[23], e[24]];
    assert f[8..25] == f[8..12] + f[12..14] + f[14..16] + [f[16]] + f[17..21] + f[21..23] + [f[23], f[24]];
  }

  // ---------------------------------------------------------------------
  // The JSON body of `http_post_packet`

  /** The eleven members, in the order of the format string; `flags` and `alert_type`
      are not among them. */
  const PacketKeys: seq<string> :=
    ["version", "node_id", "mac", "seq", "distance_cm", "level_cm", "percentual",
     "volume_l", "vin_mv", "rssi", "ts_ms"]

  function PacketMembers(p: GatewayPacket.SensorPacketV1): (ms: seq<JsonText.Member>)
    ensures |ms| == 11
  {
    [JsonText.Member(PacketKeys[0], JsonText.Number(p.version as int)),
     JsonText.Member(PacketKeys[1], JsonText.Number(p.nodeId as int)),
     JsonText.Member(PacketKeys[2], JsonText.Text(JsonText.MacToString(p.mac))),
     JsonText.Member(PacketKeys[3], JsonText.Number(p.seqNum as int)),
     JsonText.Member(PacketKeys[4], JsonText.Number(p.distanceCm as int)),
     JsonText.Member(PacketKeys[5], JsonText.Number(p.levelCm as int)),
     JsonText.Member(PacketKeys[6], JsonText.Number(p.percentual as int)),
     JsonText.Member(PacketKeys[7], JsonText.Number(p.volumeL as int)),
     JsonText.Member(PacketKeys[8], JsonText.Number(p.vinMv as int)),
     JsonText.Member(PacketKeys[9], JsonText.Number(p.rssi as int)),
     JsonText.Member(PacketKeys[10], JsonText.Number(p.tsMs as int))]
  }

  lemma KeysPlain()
    ensures forall j :: 0 <= j < |PacketKeys| ==> JsonText.NoQuote(PacketKeys[j])
  {
    assert JsonText.NoQuote("version") && JsonText.NoQuote("node_id") && JsonText.NoQuote("mac");
    assert JsonText.NoQuote("seq") && JsonText.NoQuote("distance_cm") && JsonText.NoQuote("level_cm");
    assert JsonText.NoQuote("percentual") && JsonText.NoQuote("volume_l") && JsonText.NoQuote("vin_mv");
    assert JsonText.NoQuote("rssi") && JsonText.NoQuote("ts_ms");
  }

  function RenderPacket(p: GatewayPacket.SensorPacketV1): string {
    JsonText.RenderObject(PacketMembers(p))
  }

  /** The body `http_post_packet` posts, or `None` where `snprintf` reports nothing or a
      truncation and the function returns `ESP_FAIL` without any HTTP call. */
  function HttpBody(p: GatewayPacket.SensorPacketV1): (r: Option<string>)
    ensures r.Some? ==> 0 < |r.value| < JsonBufferSize
  {
    var json := RenderPacket(p);
    if |json| == 0 || |json| >= JsonBufferSize then None else Some(json)
  }

  lemma MacTextPlain(m: Mac)
    ensures JsonText.NoQuote(JsonText.MacToString(m))
  {
    forall j | 0 <= j < 17
      ensures JsonText.MacToString(m)[j] != '"'
    {
      JsonText.HexGroupsShape(m, j);
    }
  }

  /** The body parses back to the eleven members, under exactly the keys `version`,
      `node_id`, `mac`, `seq`, `distance_cm`, `level_cm`, `percentual`, `volume_l`,
      `vin_mv`, `rssi` and `ts_ms`, in that order. */
  lemma PacketJsonRoundTrip(p: GatewayPacket.SensorPacketV1)
    ensures JsonText.ParseObject(RenderPacket(p)) == Some(PacketMembers(p))
    ensures forall j :: 0 <= j < 11 ==> PacketMembers(p)[j].key == PacketKeys[j]
  {
    MacTextPlain(p.mac);
    KeysPlain();
    var ms := PacketMembers(p);
    assert JsonText.Plain(ms) by {
      forall j | 0 <= j < |ms|
        ensures JsonText.NoQuote(ms[j].key) && (ms[j].value.Text? ==> JsonText.NoQuote(ms[j].value.s))
      {
        assert ms[j].key == PacketKeys[j];
        assert ms[j].value.Text? ==> j == 2;
      }
    }
    JsonText.ObjectRoundTrip(ms);
  }

  /** Equal bodies come from packets that agree on every rendered field. */
  lemma RenderedFieldsDetermined(p: GatewayPacket.SensorPacketV1, q: GatewayPacket.SensorPacketV1)
    requires RenderPacket(p) == RenderPacket(q)
    ensures p == q.(flags := p.flags, alertType := p.alertType)
  {
    PacketJsonRoundTrip(p);
    PacketJsonRoundTrip(q);
    var mp, mq := PacketMembers(p), PacketMembers(q);
    assert mp == mq;
    JsonText.MacRoundTrip(p.mac);
    JsonText.MacRoundTrip(q.mac);
    assert mp[2] == mq[2];
    assert mp[0] == mq[0] && mp[1] == mq[1] && mp[3] == mq[3] && mp[4] == mq[4];
    assert mp[5] == mq[5] && mp[6] == mq[6] && mp[7] == mq[7] && mp[8] == mq[8];
    assert mp[9] == mq[9] && mp[10] == mq[10];
  }

  /** Two packets render to the same body exactly when they agree on every field but
      `flags` and `alert_type`: the body carries all the others and neither of those. */
  lemma RenderDeterminesPacket(p: GatewayPacket.SensorPacketV1, q: GatewayPacket.SensorPacketV1)
    ensures RenderPacket(p) == RenderPacket(q) <==> p == q.(flags := p.flags, alertType := p.alertType)
  {
    if RenderPacket(p) == RenderPacket(q) {
      RenderedFieldsDetermined(p, q);
    } else {
      assert PacketMembers(p) != PacketMembers(q);
    }
  }

  /** Every field value is short: at most 3 digits for a `uint8_t`, 10 for a
      `uint32_t`, a sign and 5 digits for an `int16_t`, a sign and 3 for an `int8_t`. */
  lemma ValueWidths(p: GatewayPacket.SensorPacketV1)
    ensures |JsonText.IntToString(p.version as int)| <= 3 && |JsonText.IntToString(p.nodeId as int)| <= 3
    ensures |JsonText.IntToString(p.percentual as int)| <= 3
    ensures |JsonText.IntToString(p.seqNum as int)| <= 10 && |JsonText.IntToString(p.volumeL as int)| <= 10
    ensures |JsonText.IntToString(p.tsMs as int)| <= 10
    ensures |JsonText.IntToString(p.distanceCm as int)| <= 6 && |JsonText.IntToString(p.levelCm as int)| <= 6
    ensures |JsonText.IntToString(p.vinMv as int)| <= 6 && |JsonText.IntToString(p.rssi as int)| <= 4
  {
    assert JsonText.Pow10(3) == 1000;
    assert JsonText.Pow10(5) == 100000;
    assert JsonText.Pow10(10) == 10000000000;
    JsonText.NatToStringLength(p.version as int, 3, 1000);
    JsonText.NatToStringLength(p.nodeId as int, 3, 1000);
    JsonText.NatToStringLength(p.percentual as int, 3, 1000);
    JsonText.NatToStringLength(p.seqNum as int, 10, 10000000000);
    JsonText.NatToStringLength(p.volumeL as int, 10, 10000000000);
    JsonText.NatToStringLength(p.tsMs as int, 10, 10000000000);
    IntWidth(p.distanceCm as int);
    IntWidth(p.levelCm as int);
    IntWidth(p.vinMv as int);
    JsonText.NatToStringLength(if p.rssi < 0 then -(p.rssi as int) else p.rssi as int, 3, 1000);
  }

  lemma IntWidth(i: int)
    requires -0x8000 <= i < 0x8000
    ensures |JsonText.IntToString(i)| <= 6
  {
    assert JsonText.Pow10(5) == 100000;
    JsonText.NatToStringLength(if i < 0 then -i else i, 5, 100000);
  }

  /** Each member with its separator: the key, the quotes and colon, the widest value. */
  lemma MemberWidths(p: GatewayPacket.SensorPacketV1)
    ensures var ms := PacketMembers(p);
      && |JsonText.RenderMember(ms[0])| <= 13 && |JsonText.RenderMember(ms[1])| <= 13
      && |JsonText.RenderMember(ms[2])| <= 25 && |JsonText.RenderMember(ms[3])| <= 16
      && |JsonText.RenderMember(ms[4])| <= 20 && |JsonText.RenderMember(ms[5])| <= 17
      && |JsonText.RenderMember(ms[6])| <= 16 && |JsonText.RenderMember(ms[7])| <= 21
      && |JsonText.RenderMember(ms[8])| <= 15 && |JsonText.RenderMember(ms[9])| <= 11
      && |JsonText.RenderMember(ms[10])| <= 18
  {
    ValueWidths(p);
  }

  /** The longest body is 197 characters, so the 256-byte buffer never truncates and
      `http_post_packet` always reaches the HTTP client. */
  lemma JsonAlwaysFits(p: GatewayPacket.SensorPacketV1)
    ensures |RenderPacket(p)| <= 197
    ensures HttpBody(p) == Some(RenderPacket(p))
  {
    var ms := PacketMembers(p);
    MemberWidths(p);
    JsonText.MembersLength(ms, 0);
    assert ms[0..] == ms;
    assert JsonText.WidthFrom(ms, 11) == 0;
    assert JsonText.WidthFrom(ms, 10) <= 19;
    assert JsonText.WidthFrom(ms, 9) <= 31;
    assert JsonText.WidthFrom(ms, 8) <= 47;
    assert JsonText.WidthFrom(ms, 7) <= 69;
    assert JsonText.WidthFrom(ms, 6) <= 86;
    assert JsonText.WidthFrom(ms, 5) <= 104;
    assert JsonText.WidthFrom(ms, 4) <= 125;
    assert JsonText.WidthFrom(ms, 3) <= 142;
    assert JsonText.WidthFrom(ms, 2) <= 168;
    assert JsonText.WidthFrom(ms, 1) <= 182;
    assert JsonText.WidthFrom(ms, 0) <= 196;
  }

  // ---------------------------------------------------------------------
  // Counters and queues

  /** The gateway's globals: `gateway_metrics`, the two queues, and `wifi_got_ip`.
      The ghost totals are the counters without 32-bit wrap-around, with the error
      count split by cause and the packets lost to a full queue counted. */
  class GatewayNode {
    var packetsReceived: uint32
    var packetsParsed: uint32
    var parseErrors: uint32
    var espnowQueueCreated: bool
    var httpQueueCreated: bool
    var espnowQueue: seq<QueuedPacket>
    var httpQueue: seq<GatewayPacket.SensorPacketV1>
    var wifiGotIp: bool

    ghost var received: nat
    ghost var parsed: nat
    ghost var lengthErrors: nat
    ghost var versionErrors: nat
    ghost var queueDrops: nat

    /** Each counter is its total modulo 2^32; every packet counted as received is
        either lost to a full queue, still queued, parsed, or rejected for its version;
        only version-1 packets reach the HTTP queue. */
    ghost predicate Valid()
      reads this
      ensures Valid() ==> parsed <= received
    {
      && |espnowQueue| <= QueueLength && |httpQueue| <= QueueLength
      && (!espnowQueueCreated ==> espnowQueue == [])
      && (!httpQueueCreated ==> httpQueue == [])
      && packetsReceived == Wrap32(received)
      && packetsParsed == Wrap32(parsed)
      && parseErrors == Wrap32(lengthErrors + versionErrors)
      && received == queueDrops + |espnowQueue| + parsed + versionErrors
      && (forall j :: 0 <= j < |httpQueue| ==> httpQueue[j].version == GatewayPacket.SensorPacketVersion)
    }

    /** `gateway_metrics = {0}` and the queue creation of `app_main`, which stops at the
        first queue it cannot create. */
    constructor (espnowCreateOk: bool, httpCreateOk: bool)
      ensures Valid()
      ensures packetsReceived == 0 && packetsParsed == 0 && parseErrors == 0
      ensures espnowQueueCreated == espnowCreateOk
      ensures httpQueueCreated == (espnowCreateOk && httpCreateOk)
      ensures espnowQueue == [] && httpQueue == [] && !wifiGotIp
    {
      packetsReceived, packetsParsed, parseErrors := 0, 0, 0;
      espnowQueueCreated := espnowCreateOk;
      httpQueueCreated := espnowCreateOk && httpCreateOk;
      espnowQueue, httpQueue := [], [];
      wifiGotIp := false;
      received, parsed, lengthErrors, versionErrors, queueDrops := 0, 0, 0, 0, 0;
    }

    /** `espnow_recv_cb`. `info` is `None` for a null `recv_info`; `nowUs` is what
        `esp_timer_get_time` returns. */
    method RecvCb(info: Option<RecvInfo>, frame: seq<uint8>, nowUs: nat) returns (enqueued: bool)
      requires Valid()
      modifies this
      ensures Valid()
      ensures httpQueue == old(httpQueue) && packetsParsed == old(packetsParsed) && wifiGotIp == old(wifiGotIp)
      ensures espnowQueueCreated == old(espnowQueueCreated) && httpQueueCreated == old(httpQueueCreated)
      ensures info.None? || !espnowQueueCreated ==>
                !enqueued && espnowQueue == old(espnowQueue) && packetsReceived == old(packetsReceived)
                && parseErrors == old(parseErrors)
      ensures info.Some? && espnowQueueCreated && |frame| != GatewayPacket.SensorPacketSize ==>
                !enqueued && espnowQueue == old(espnowQueue) && packetsReceived == old(packetsReceived)
                && parseErrors == Wrap32(old(parseErrors) as int + 1)
      ensures info.Some? && espnowQueueCreated && |frame| == GatewayPacket.SensorPacketSize ==>
                && packetsReceived == Wrap32(old(packetsReceived) as int + 1)
                && parseErrors == old(parseErrors)
                && enqueued == (|old(espnowQueue)| < QueueLength)
                && espnowQueue == (if enqueued then old(espnowQueue) + [Enrich(info.value, frame, nowUs)]
                                   else old(espnowQueue))
    {
      enqueued := false;
      if info.None? || !espnowQueueCreated {
        return;
      }
      if |frame| != GatewayPacket.SensorPacketSize {
        CountLengthError();
        return;
      }
      var packet := Enrich(info.value, frame, nowUs);
      enqueued := CountAndEnqueue(packet);
    }

    /** A frame of the wrong size: one more parse error, nothing queued. */
    method CountLengthError()
      requires Valid()
      modifies this
      ensures Valid()
      ensures parseErrors == Wrap32(old(parseErrors) as int + 1)
      ensures packetsReceived == old(packetsReceived) && packetsParsed == old(packetsParsed)
      ensures espnowQueue == old(espnowQueue) && httpQueue == old(httpQueue) && wifiGotIp == old(wifiGotIp)
      ensures espnowQueueCreated == old(espnowQueueCreated) && httpQueueCreated == old(httpQueueCreated)
    {
      Wrap32Succ(lengthErrors + versionErrors);
      parseErrors := Wrap32(parseErrors as int + 1);
      lengthErrors := lengthErrors + 1;
    }

    /** An accepted frame: counted as received, then queued if the queue has room and
        lost otherwise. */
    method CountAndEnqueue(packet: QueuedPacket) returns (enqueued: bool)
      requires Valid() && espnowQueueCreated
      modifies this
      ensures Valid()
      ensures packetsReceived == Wrap32(old(packetsReceived) as int + 1)
      ensures enqueued == (|old(espnowQueue)| < QueueLength)
      ensures espnowQueue == (if enqueued then old(espnowQueue) + [packet] else old(espnowQueue))
      ensures parseErrors == old(parseErrors) && packetsParsed == old(packetsParsed)
      ensures httpQueue == old(httpQueue) && wifiGotIp == old(wifiGotIp)
      ensures espnowQueueCreated == old(espnowQueueCreated) && httpQueueCreated == old(httpQueueCreated)
    {
      Wrap32Succ(received);
      packetsReceived := Wrap32(packetsReceived as int + 1);
      received := received + 1;
      enqueued := |espnowQueue| < QueueLength;
      if enqueued {
        espnowQueue := espnowQueue + [packet];
      } else {
        queueDrops := queueDrops + 1;
      }
    }

    /** One pass of `packet_processing_task` that takes a packet off the queue (a pass
        whose receive times out changes nothing): a version-1 packet is counted as
        parsed and copied to the HTTP queue if that exists and has room; any other
        version is a parse error and goes nowhere. */
    method ProcessStep() returns (forwarded: bool)
      requires Valid()
      modifies this
      ensures Valid()
      ensures packetsReceived == old(packetsReceived) && wifiGotIp == old(wifiGotIp)
      ensures espnowQueueCreated == old(espnowQueueCreated) && httpQueueCreated == old(httpQueueCreated)
      ensures old(espnowQueue) == [] ==>
                && !forwarded && espnowQueue == [] && httpQueue == old(httpQueue)
                && packetsParsed == old(packetsParsed) && parseErrors == old(parseErrors)
      ensures old(espnowQueue) != [] ==> espnowQueue == old(espnowQueue)[1..]
      ensures old(espnowQueue) != [] && old(espnowQueue)[0].data.version == GatewayPacket.SensorPacketVersion ==>
                && packetsParsed == Wrap32(old(packetsParsed) as int + 1) && parseErrors == old(parseErrors)
                && forwarded == (httpQueueCreated && |old(httpQueue)| < QueueLength)
                && httpQueue == (if forwarded then old(httpQueue) + [old(espnowQueue)[0].data] else old(httpQueue))
      ensures old(espnowQueue) != [] && old(espnowQueue)[0].data.version != GatewayPacket.SensorPacketVersion ==>
                && !forwarded && httpQueue == old(httpQueue) && packetsParsed == old(packetsParsed)
                && parseErrors == Wrap32(old(parseErrors) as int + 1)
    {
      forwarded := false;
      if espnowQueue == [] {
        return;
      }
      if espnowQueue[0].data.version == GatewayPacket.SensorPacketVersion {
        forwarded := TakeParsed();
      } else {
        TakeBadVersion();
      }
    }

    /** The head of the queue has version 1: counted as parsed and copied to the HTTP
        queue unless that queue is missing or full. */
    method TakeParsed() returns (forwarded: bool)
      requires Valid() && espnowQueue != [] && espnowQueue[0].data.version == GatewayPacket.SensorPacketVersion
      modifies this
      ensures Valid()
      ensures espnowQueue == old(espnowQueue)[1..]
      ensures packetsParsed == Wrap32(old(packetsParsed) as int + 1)
      ensures forwarded == (httpQueueCreated && |old(httpQueue)| < QueueLength)
      ensures httpQueue == (if forwarded then old(httpQueue) + [old(espnowQueue)[0].data] else old(httpQueue))
      ensures packetsReceived == old(packetsReceived) && parseErrors == old(parseErrors) && wifiGotIp == old(wifiGotIp)
      ensures espnowQueueCreated == old(espnowQueueCreated) && httpQueueCreated == old(httpQueueCreated)
    {
      var packet := espnowQueue[0];
      espnowQueue := espnowQueue[1..];
      Wrap32Succ(parsed);
      packetsParsed := Wrap32(packetsParsed as int + 1);
      parsed := parsed + 1;
      forwarded := httpQueueCreated && |httpQueue| < QueueLength;
      if forwarded {
        httpQueue := httpQueue + [packet.data];
      }
    }

    /** The head of the queue has another version: one more parse error, forwarded
        nowhere. */
    method TakeBadVersion()
      requires Valid() && espnowQueue != [] && espnowQueue[0].data.version != GatewayPacket.SensorPacketVersion
      modifies this
      ensures Valid()
      ensures espnowQueue == old(espnowQueue)[1..]
      ensures parseErrors == Wrap32(old(parseErrors) as int + 1)
      ensures packetsParsed == old(packetsParsed) && httpQueue == old(httpQueue)
      ensures packetsReceived == old(packetsReceived) && wifiGotIp == old(wifiGotIp)
      ensures espnowQueueCreated == old(espnowQueueCreated) && httpQueueCreated == old(httpQueueCreated)
    {
      espnowQueue := espnowQueue[1..];
      Wrap32Succ(lengthErrors + versionErrors);
      parseErrors := Wrap32(parseErrors as int + 1);
      versionErrors := versionErrors + 1;
    }

    /** One pass of `http_worker_task` that receives a packet: without an IP address it
        is discarded, otherwise `body` is what `http_post_packet` hands to the HTTP
        client. Nothing is retried or kept. */
    method HttpWorkerStep() returns (body: Option<string>)
      requires Valid()
      modifies this
      ensures Valid()
      ensures packetsReceived == old(packetsReceived) && packetsParsed == old(packetsParsed)
      ensures parseErrors == old(parseErrors) && espnowQueue == old(espnowQueue) && wifiGotIp == old(wifiGotIp)
      ensures espnowQueueCreated == old(espnowQueueCreated) && httpQueueCreated == old(httpQueueCreated)
      ensures old(httpQueue) == [] ==> body.None? && httpQueue == []
      ensures old(httpQueue) != [] ==> httpQueue == old(httpQueue)[1..]
      ensures old(httpQueue) != [] ==>
                body == (if wifiGotIp then Some(RenderPacket(old(httpQueue)[0])) else None)
    {
      body := None;
      if httpQueue == [] {
        return;
      }
      var pkt := httpQueue[0];
      httpQueue := httpQueue[1..];
      if !wifiGotIp {
        return;
      }
      JsonAlwaysFits(pkt);
      body := HttpBody(pkt);
    }

    /** `wifi_event_handler`: a disconnect clears `wifi_got_ip`, an address sets it. */
    method OnWifiEvent(e: WifiEvent)
      requires Valid()
      modifies this
      ensures Valid()
      ensures wifiGotIp == (if e == StaDisconnected then false else if e == StaGotIp then true else old(wifiGotIp))
      ensures packetsReceived == old(packetsReceived) && packetsParsed == old(packetsParsed)
      ensures parseErrors == old(parseErrors) && espnowQueue == old(espnowQueue) && httpQueue == old(httpQueue)
      ensures espnowQueueCreated == old(espnowQueueCreated) && httpQueueCreated == old(httpQueueCreated)
    {
      if e == StaDisconnected {
        wifiGotIp := false;
      }
      if e == StaGotIp {
        wifiGotIp := true;
      }
    }
  }
}

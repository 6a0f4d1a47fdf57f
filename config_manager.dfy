/** The EEPROM-backed configuration of the Arduino Nano ethernet node.  The
    configuration is one packed `DeviceConfig` record; on the AVR every field is
    byte-aligned, so the record is 39 bytes with no padding and multi-byte fields
    little-endian:

      0 magic | 1 version | 2..5 ip | 6..9 gateway | 10..13 subnet | 14..17 backend ip
      18..19 backend port | 20 node id | 21..22 sensor offset | 23..24 reservoir height
      25..28 reservoir volume | 29..32 post interval | 33..34 print interval
      35 sample count | 36..37 sample delay | 38 checksum

    The checksum is the 8-bit sum of bytes 0..37.  The manager keeps the record as
    a byte buffer, since `calculateChecksum` reads it byte by byte, and the EEPROM
    as a byte sequence whose first 39 bytes hold the stored record. */
module ConfigManager {
  import opened Bytes

  const ConfigSize: int := 39
  const ChecksumOffset: int := 38
  const EepromSize: int := 1024
  const ConfigMagic: uint8 := 0xAC
  const ConfigVersion: uint8 := 1
  const IpOffset: int := 2
  const BackendIpOffset: int := 14

  type Ip4 = s: seq<uint8> | |s| == 4 witness [0, 0, 0, 0]

  /** The record, field by field. */
  datatype DeviceConfig = DeviceConfig(
    magic: uint8, version: uint8,
    ip: Ip4, gateway: Ip4, subnet: Ip4,
    backendIp: Ip4, backendPort: uint16,
    nodeId: uint8, sensorOffsetCm: uint16, resHeightCm: uint16, resVolumeL: uint32,
    postIntervalMs: uint32, printIntervalMs: uint16,
    sampleCount: uint8, sampleDelayMs: uint16,
    checksum: uint8)

  // ---------------------------------------------------------------------
  // The byte image

  /** The record as it lies in memory (and in EEPROM): bytes 0..19, 20..28 and
      29..38 are the three groups below. */
  function Image(c: DeviceConfig): (img: seq<uint8>)
    ensures |img| == ConfigSize
  {
    NetworkBytes(c) + SensorBytes(c) + TimingBytes(c)
  }

  function NetworkBytes(c: DeviceConfig): (b: seq<uint8>)
    ensures |b| == 20
  {
    [c.magic, c.version] + c.ip + c.gateway + c.subnet + c.backendIp + LE16(c.backendPort)
  }

  function SensorBytes(c: DeviceConfig): (b: seq<uint8>)
    ensures |b| == 9
  {
    [c.nodeId] + LE16(c.sensorOffsetCm) + LE16(c.resHeightCm) + LE32(c.resVolumeL)
  }

  function TimingBytes(c: DeviceConfig): (b: seq<uint8>)
    ensures |b| == 10
  {
    LE32(c.postIntervalMs) + LE16(c.printIntervalMs) + [c.sampleCount] + LE16(c.sampleDelayMs)
    + [c.checksum]
  }

  /** The record a 39-byte image holds, as `EEPROM.get` reinterprets it. */
  function Decode(img: seq<uint8>): DeviceConfig
    requires |img| == ConfigSize
  {
    DeviceConfig(
      img[0], img[1], img[2..6], img[6..10], img[10..14],
      img[14..18], U16Of(img[18..20]),
      img[20], U16Of(img[21..23]), U16Of(img[23..25]), U32Of(img[25..29]),
      U32Of(img[29..33]), U16Of(img[33..35]),
      img[35], U16Of(img[36..38]),
      img[38])
  }

  lemma ImageRoundTrip(c: DeviceConfig)
    ensures Decode(Image(c)) == c
  {
    var img := Image(c);
    assert img[..20] == NetworkBytes(c) && img[20..29] == SensorBytes(c) && img[29..] == TimingBytes(c);
    assert img[18..20] == LE16(c.backendPort);
    assert img[21..23] == LE16(c.sensorOffsetCm);
    assert img[23..25] == LE16(c.resHeightCm);
    assert img[25..29] == LE32(c.resVolumeL);
    assert img[29..33] == LE32(c.postIntervalMs);
    assert img[33..35] == LE16(c.printIntervalMs);
    assert img[36..38] == LE16(c.sampleDelayMs);
    LE16RoundTrip(c.backendPort);
    LE16RoundTrip(c.sensorOffsetCm);
    LE16RoundTrip(c.resHeightCm);
    LE32RoundTrip(c.resVolumeL);
    LE32RoundTrip(c.postIntervalMs);
    LE16RoundTrip(c.printIntervalMs);
    LE16RoundTrip(c.sampleDelayMs);
  }

  /** Every 39-byte image is the image of the record it decodes to. */
  lemma DecodeRoundTrip(img: seq<uint8>)
    requires |img| == ConfigSize
    ensures Image(Decode(img)) == img
  {
    NetworkBytesOfDecode(img);
    SensorBytesOfDecode(img);
    TimingBytesOfDecode(img);
    assert img == img[..20] + img[20..29] + img[29..];
  }

  lemma NetworkBytesOfDecode(img: seq<uint8>)
    requires |img| == ConfigSize
    ensures NetworkBytes(Decode(img)) == img[..20]
  {
    U16OfInjective(img[18..20]);
    assert img[..20] == img[0..2] + img[2..6] + img[6..10] + img[10..14] + img[14..18] + img[18..20];
  }

  lemma SensorBytesOfDecode(img: seq<uint8>)
    requires |img| == ConfigSize
    ensures SensorBytes(Decode(img)) == img[20..29]
  {
    U16OfInjective(img[21..23]);
    U16OfInjective(img[23..25]);
    U32OfInjective(img[25..29]);
    assert img[20..29] == img[20..21] + img[21..23] + img[23..25] + img[25..29];
  }

  lemma TimingBytesOfDecode(img: seq<uint8>)
    requires |img| == ConfigSize
    ensures TimingBytes(Decode(img)) == img[29..]
  {
    U32OfInjective(img[29..33]);
    U16OfInjective(img[33..35]);
    U16OfInjective(img[36..38]);
    assert img[29..] == img[29..33] + img[33..35] + img[35..36] + img[36..38] + img[38..39];
  }

  // ---------------------------------------------------------------------
  // Checksum and validity

  /** The sum of the bytes of `s`, unbounded. */
  function ByteSum(s: seq<uint8>): nat
  {
    if s == [] then 0 else ByteSum(s[..|s| - 1]) + s[|s| - 1] as nat
  }

  lemma {:induction false} ByteSumAppend(a: seq<uint8>, b: seq<uint8>)
    ensures ByteSum(a + b) == ByteSum(a) + ByteSum(b)
    decreases |b|
  {
    if b == [] {
      assert a + b == a;
    } else {
      var b' := b[..|b| - 1];
      assert (a + b)[..|a + b| - 1] == a + b';
      ByteSumAppend(a, b');
    }
  }

  /** `sum += byte` on a `uint8_t` accumulator keeps the sum modulo 256. */
  lemma Wrap8Add(x: int, y: int)
    ensures Wrap8(Wrap8(x) as int + y) == Wrap8(x + y)
  {
  }

  /** The checksum `calculateChecksum` computes: the 8-bit sum of every byte of the
      image but the trailing checksum byte. */
  function Checksum(img: seq<uint8>): (r: uint8)
    requires |img| == ConfigSize
  {
    Wrap8(ByteSum(img[..ChecksumOffset]))
  }

  /** What `load` accepts: the magic byte and a matching checksum.  The version
      byte is not looked at. */
  predicate IsValidImage(img: seq<uint8>)
    requires |img| == ConfigSize
  {
    img[0] == ConfigMagic && img[ChecksumOffset] == Checksum(img)
  }

  /** The image with its checksum recomputed, as `config.checksum =
      calculateChecksum()` leaves it. */
  function WithChecksum(img: seq<uint8>): (r: seq<uint8>)
    requires |img| == ConfigSize
    ensures |r| == ConfigSize
  {
    img[ChecksumOffset := Checksum(img)]
  }

  /** The image `save` writes: magic and version stamped, checksum recomputed. */
  function Stamp(img: seq<uint8>): (r: seq<uint8>)
    requires |img| == ConfigSize
    ensures |r| == ConfigSize
  {
    WithChecksum(img[0 := ConfigMagic][1 := ConfigVersion])
  }

  /** The checksum does not depend on the checksum byte. */
  lemma ChecksumIgnoresChecksumByte(img: seq<uint8>, v: uint8)
    requires |img| == ConfigSize
    ensures Checksum(img[ChecksumOffset := v]) == Checksum(img)
  {
    assert img[ChecksumOffset := v][..ChecksumOffset] == img[..ChecksumOffset];
  }

  /** A recomputed checksum makes the image valid as soon as the magic is right,
      whatever the version byte holds, and nothing but the checksum byte moves. */
  lemma WithChecksumValid(img: seq<uint8>)
    requires |img| == ConfigSize && img[0] == ConfigMagic
    ensures IsValidImage(WithChecksum(img))
    ensures WithChecksum(img)[..ChecksumOffset] == img[..ChecksumOffset]
  {
    ChecksumIgnoresChecksumByte(img, Checksum(img));
  }

  /** What was saved loads: the stamped image is valid, carries version 1, and
      keeps every configuration byte (2..37) of the image it was made from. */
  lemma StampValid(img: seq<uint8>)
    requires |img| == ConfigSize
    ensures IsValidImage(Stamp(img))
    ensures Stamp(img)[1] == ConfigVersion
    ensures Stamp(img)[2..ChecksumOffset] == img[2..ChecksumOffset]
  {
    WithChecksumValid(img[0 := ConfigMagic][1 := ConfigVersion]);
  }

  /** Saving changes nothing exactly when the image already loads and carries
      version 1. */
  lemma StampFixedPoints(img: seq<uint8>)
    requires |img| == ConfigSize
    ensures Stamp(img) == img <==> IsValidImage(img) && img[1] == ConfigVersion
  {
    StampValid(img);
    if IsValidImage(img) && img[1] == ConfigVersion {
      assert img[0 := ConfigMagic][1 := ConfigVersion] == img;
    }
  }

  /** A record with any version and a right checksum loads: the version byte is
      not checked. */
  lemma LoadIgnoresVersion(img: seq<uint8>, version: uint8)
    requires |img| == ConfigSize
    ensures IsValidImage(WithChecksum(img[0 := ConfigMagic][1 := version]))
    ensures WithChecksum(img[0 := ConfigMagic][1 := version])[1] == version
  {
    WithChecksumValid(img[0 := ConfigMagic][1 := version]);
  }

  /** Changing one byte of a valid image other than the checksum byte makes the
      image fail to load: an 8-bit sum sees every single-byte change. */
  lemma SingleByteChangeDetected(img: seq<uint8>, i: int, v: uint8)
    requires |img| == ConfigSize && IsValidImage(img)
    requires 0 <= i < ChecksumOffset && v != img[i]
    ensures !IsValidImage(img[i := v])
  {
    var img' := img[i := v];
    assert img[..ChecksumOffset] == img[..i] + [img[i]] + img[i + 1..ChecksumOffset];
    assert img'[..ChecksumOffset] == img[..i] + [v] + img[i + 1..ChecksumOffset];
    ByteSumAppend(img[..i] + [img[i]], img[i + 1..ChecksumOffset]);
    ByteSumAppend(img[..i] + [v], img[i + 1..ChecksumOffset]);
    ByteSumAppend(img[..i], [img[i]]);
    ByteSumAppend(img[..i], [v]);
    assert ByteSum([img[i]]) == img[i] as nat by { assert [img[i]][..0] == []; }
    assert ByteSum([v]) == v as nat by { assert [v][..0] == []; }
    var d := v as int - img[i] as int;
    assert ByteSum(img'[..ChecksumOffset]) == ByteSum(img[..ChecksumOffset]) + d;
    assert -0x100 < d < 0x100 && d != 0;
  }

  // ---------------------------------------------------------------------
  // Defaults

  /** The fields `loadDefaults` assigns (the checksum is computed afterwards). */
  const DefaultSettings: DeviceConfig := DeviceConfig(
    ConfigMagic, ConfigVersion,
    [192, 168, 0, 222], [192, 168, 0, 1], [255, 255, 255, 0],
    [192, 168, 0, 117], 8080,
    3, 20, 450, 80000,
    30000, 1000,
    3, 100,
    0)

  /** The image `loadDefaults` leaves behind. */
  function DefaultImage(): (img: seq<uint8>)
    ensures |img| == ConfigSize
  {
    WithChecksum(Image(DefaultSettings))
  }

  /** The defaults load, saving them writes them unchanged, and they hold the
      documented values; their checksum byte is 0x6F. */
  lemma DefaultsValid()
    ensures IsValidImage(DefaultImage())
    ensures Stamp(DefaultImage()) == DefaultImage()
    ensures Decode(DefaultImage()) == DefaultSettings.(checksum := 0x6F)
    ensures Decode(DefaultImage()).nodeId == 3 && Decode(DefaultImage()).sensorOffsetCm == 20
    ensures Decode(DefaultImage()).resHeightCm == 450 && Decode(DefaultImage()).resVolumeL == 80000
    ensures Decode(DefaultImage()).postIntervalMs == 30000 && Decode(DefaultImage()).printIntervalMs == 1000
    ensures Decode(DefaultImage()).sampleCount == 3 && Decode(DefaultImage()).sampleDelayMs == 100
  {
    var img := Image(DefaultSettings);
    WithChecksumValid(img);
    StampFixedPoints(DefaultImage());
    DefaultsSum();
    ImageRoundTrip(DefaultSettings.(checksum := 0x6F));
    assert DefaultImage() == Image(DefaultSettings.(checksum := 0x6F));
  }

  /** The byte sum of the default image, 3439, is 0x6F modulo 256. */
  lemma DefaultsSum()
    ensures Checksum(Image(DefaultSettings)) == 0x6F
  {
    ChecksumOfFields(DefaultSettings);
    var c := DefaultSettings;
    assert Sum16(c.backendPort) == 0x90 + 0x1F;
    assert Sum16(c.resHeightCm) == 0xC2 + 0x01;
    assert Sum32(c.resVolumeL) == 0x80 + 0x38 + 0x01;
    assert Sum32(c.postIntervalMs) == 0x30 + 0x75;
    assert Sum16(c.printIntervalMs) == 0xE8 + 0x03;
    assert FieldSum(c) == 3439;
  }

  /** The sum of the byte image of a 16- and a 32-bit field. */
  function Sum16(x: uint16): nat { x as nat % 0x100 + x as nat / 0x100 }
  function Sum32(x: uint32): nat
  {
    x as nat % 0x100 + x as nat / 0x100 % 0x100 + x as nat / 0x1_0000 % 0x100 + x as nat / 0x100_0000
  }
  function Sum4(q: Ip4): nat { q[0] as nat + q[1] as nat + q[2] as nat + q[3] as nat }

  /** Every field but the checksum, each counted as the sum of its bytes. */
  function FieldSum(c: DeviceConfig): nat
  {
    c.magic as nat + c.version as nat + Sum4(c.ip) + Sum4(c.gateway) + Sum4(c.subnet)
    + Sum4(c.backendIp) + Sum16(c.backendPort) + c.nodeId as nat + Sum16(c.sensorOffsetCm)
    + Sum16(c.resHeightCm) + Sum32(c.resVolumeL) + Sum32(c.postIntervalMs)
    + Sum16(c.printIntervalMs) + c.sampleCount as nat + Sum16(c.sampleDelayMs)
  }

  /** The checksum of a record's image, field by field. */
  lemma ChecksumOfFields(c: DeviceConfig)
    ensures Checksum(Image(c)) == Wrap8(FieldSum(c))
  {
    var n, m, t := NetworkBytes(c), SensorBytes(c), TimingBytes(c)[..9];
    assert Image(c)[..ChecksumOffset] == n + m + t;
    ByteSumAppend(n + m, t);
    ByteSumAppend(n, m);
    NetworkSum(c);
    SensorSum(c);
    TimingSum(c);
  }

  lemma ByteSum1(x: uint8)
    ensures ByteSum([x]) == x as nat
  {
    assert [x][..0] == [];
  }

  lemma ByteSum2(s: seq<uint8>)
    requires |s| == 2
    ensures ByteSum(s) == s[0] as nat + s[1] as nat
  {
    ByteSum1(s[0]);
    assert s[..1] == [s[0]];
  }

  lemma ByteSum4(s: seq<uint8>)
    requires |s| == 4
    ensures ByteSum(s) == s[0] as nat + s[1] as nat + s[2] as nat + s[3] as nat
  {
    ByteSum2(s[..2]);
    assert s[..3][..2] == s[..2];
  }

  lemma NetworkSum(c: DeviceConfig)
    ensures ByteSum(NetworkBytes(c)) == c.magic as nat + c.version as nat + Sum4(c.ip)
      + Sum4(c.gateway) + Sum4(c.subnet) + Sum4(c.backendIp) + Sum16(c.backendPort)
  {
    var h := [c.magic, c.version];
    ByteSumAppend(h + c.ip + c.gateway + c.subnet + c.backendIp, LE16(c.backendPort));
    ByteSumAppend(h + c.ip + c.gateway + c.subnet, c.backendIp);
    ByteSumAppend(h + c.ip + c.gateway, c.subnet);
    ByteSumAppend(h + c.ip, c.gateway);
    ByteSumAppend(h, c.ip);
    ByteSum2(h);
    ByteSum4(c.ip);
    ByteSum4(c.gateway);
    ByteSum4(c.subnet);
    ByteSum4(c.backendIp);
    ByteSum2(LE16(c.backendPort));
  }

  lemma SensorSum(c: DeviceConfig)
    ensures ByteSum(SensorBytes(c)) == c.nodeId as nat + Sum16(c.sensorOffsetCm)
      + Sum16(c.resHeightCm) + Sum32(c.resVolumeL)
  {
    var h := [c.nodeId];
    ByteSumAppend(h + LE16(c.sensorOffsetCm) + LE16(c.resHeightCm), LE32(c.resVolumeL));
    ByteSumAppend(h + LE16(c.sensorOffsetCm), LE16(c.resHeightCm));
    ByteSumAppend(h, LE16(c.sensorOffsetCm));
    ByteSum1(c.nodeId);
    ByteSum2(LE16(c.sensorOffsetCm));
    ByteSum2(LE16(c.resHeightCm));
    ByteSum4(LE32(c.resVolumeL));
  }

  lemma TimingSum(c: DeviceConfig)
    ensures ByteSum(TimingBytes(c)[..9]) == Sum32(c.postIntervalMs) + Sum16(c.printIntervalMs)
      + c.sampleCount as nat + Sum16(c.sampleDelayMs)
  {
    var p, q := LE32(c.postIntervalMs), LE16(c.printIntervalMs);
    var h := [c.sampleCount];
    assert TimingBytes(c)[..9] == p + q + h + LE16(c.sampleDelayMs);
    ByteSumAppend(p + q + h, LE16(c.sampleDelayMs));
    ByteSumAppend(p + q, h);
    ByteSumAppend(p, q);
    ByteSum4(p);
    ByteSum2(q);
    ByteSum1(c.sampleCount);
    ByteSum2(LE16(c.sampleDelayMs));
  }

  // ---------------------------------------------------------------------
  // Setters

  /** The image with four bytes at `offset` replaced by `q`. */
  function SetQuad(img: seq<uint8>, offset: int, q: Ip4): (r: seq<uint8>)
    requires |img| == ConfigSize && 0 <= offset <= ConfigSize - 4
    ensures |r| == ConfigSize
  {
    img[..offset] + q + img[offset + 4..]
  }

  /** `setIP` changes the device address and nothing else, the checksum included. */
  lemma SetIpOnlyChangesIp(img: seq<uint8>, q: Ip4)
    requires |img| == ConfigSize
    ensures Decode(SetQuad(img, IpOffset, q)) == Decode(img).(ip := q)
  {
    var r := SetQuad(img, IpOffset, q);
    assert r[2..6] == q;
    assert forall k :: 0 <= k < 2 ==> r[k] == img[k];
    assert forall k :: 6 <= k < ConfigSize ==> r[k] == img[k];
    assert r[6..10] == img[6..10] && r[10..14] == img[10..14] && r[14..18] == img[14..18];
    UnchangedTail(img, r);
  }

  /** `setBackendIP` changes the backend address and nothing else, the checksum included. */
  lemma SetBackendIpOnlyChangesBackendIp(img: seq<uint8>, q: Ip4)
    requires |img| == ConfigSize
    ensures Decode(SetQuad(img, BackendIpOffset, q)) == Decode(img).(backendIp := q)
  {
    var r := SetQuad(img, BackendIpOffset, q);
    assert r[14..18] == q;
    assert forall k :: 0 <= k < 14 ==> r[k] == img[k];
    assert forall k :: 18 <= k < ConfigSize ==> r[k] == img[k];
    assert r[..14] == img[..14];
    UnchangedTail(img, r);
  }

  /** Two images that agree from byte 18 on decode to the same fields from the
      backend port on. */
  lemma UnchangedTail(img: seq<uint8>, r: seq<uint8>)
    requires |img| == ConfigSize && |r| == ConfigSize
    requires forall k :: 18 <= k < ConfigSize ==> r[k] == img[k]
    ensures r[18..20] == img[18..20] && r[21..23] == img[21..23] && r[23..25] == img[23..25]
    ensures r[25..29] == img[25..29] && r[29..33] == img[29..33] && r[33..35] == img[33..35]
    ensures r[36..38] == img[36..38]
  {
  }

  /** After a setter the stale checksum still matches exactly when the four new
      bytes have the same sum modulo 256 as the four old ones. */
  lemma SetterChecksum(img: seq<uint8>, offset: int, q: Ip4)
    requires |img| == ConfigSize && IsValidImage(img)
    requires 2 <= offset <= ChecksumOffset - 4
    ensures IsValidImage(SetQuad(img, offset, q))
        <==> ByteSum(q) % 0x100 == ByteSum(img[offset..offset + 4]) % 0x100
  {
    var pre, old4, post := img[..offset], img[offset..offset + 4], img[offset + 4..ChecksumOffset];
    SetQuadShape(img, offset, q);
    ByteSum3(pre, old4, post);
    ByteSum3(pre, q, post);
    Wrap8Shift(ByteSum(pre) + ByteSum(post), ByteSum(old4), ByteSum(q));
  }

  /** Two sums with a common part agree modulo 256 exactly when the other parts do. */
  lemma Wrap8Shift(x: int, a: int, b: int)
    ensures Wrap8(x + a) == Wrap8(x + b) <==> a % 0x100 == b % 0x100
  {
    var qa, qb := (x + a) / 0x100, (x + b) / 0x100;
    assert x + a == 0x100 * qa + (x + a) % 0x100;
    assert x + b == 0x100 * qb + (x + b) % 0x100;
    assert a - b == 0x100 * (qa - qb) + ((x + a) % 0x100 - (x + b) % 0x100);
    if a % 0x100 == b % 0x100 {
      assert (a - b) % 0x100 == 0;
    }
  }

  /** Where a setter's four bytes sit among the others. */
  lemma SetQuadShape(img: seq<uint8>, offset: int, q: Ip4)
    requires |img| == ConfigSize && 2 <= offset <= ChecksumOffset - 4
    ensures img[..ChecksumOffset] == img[..offset] + img[offset..offset + 4] + img[offset + 4..ChecksumOffset]
    ensures SetQuad(img, offset, q)[..ChecksumOffset] == img[..offset] + q + img[offset + 4..ChecksumOffset]
    ensures SetQuad(img, offset, q)[0] == img[0]
    ensures SetQuad(img, offset, q)[ChecksumOffset] == img[ChecksumOffset]
  {
  }

  lemma ByteSum3(a: seq<uint8>, b: seq<uint8>, c: seq<uint8>)
    ensures ByteSum(a + b + c) == ByteSum(a) + ByteSum(b) + ByteSum(c)
  {
    ByteSumAppend(a + b, c);
    ByteSumAppend(a, b);
  }

  /** A `save` after a setter makes the image valid again with the new address in place. */
  lemma SaveAfterSetter(img: seq<uint8>, offset: int, q: Ip4)
    requires |img| == ConfigSize
    requires 2 <= offset <= ChecksumOffset - 4
    ensures IsValidImage(Stamp(SetQuad(img, offset, q)))
    ensures Stamp(SetQuad(img, offset, q))[offset..offset + 4] == q
  {
    var r := SetQuad(img, offset, q);
    StampValid(r);
    assert Stamp(r)[offset..offset + 4] == Stamp(r)[2..ChecksumOffset][offset - 2..offset + 2];
    assert r[2..ChecksumOffset][offset - 2..offset + 2] == q;
  }

  // ---------------------------------------------------------------------
  // The manager

  class ConfigManager {
    /** `DeviceConfig config`, viewed as the bytes `calculateChecksum` reads. */
    const config: array<uint8>
    /** The EEPROM; the record is stored at address 0. */
    var eeprom: seq<uint8>

    ghost predicate Valid()
      reads this
    {
      config.Length == ConfigSize && |eeprom| == EepromSize
    }

    /** A manager over the given EEPROM contents; the record in RAM starts zeroed,
        as a global object's members are. */
    constructor (rom: seq<uint8>)
      requires |rom| == EepromSize
      ensures Valid() && eeprom == rom
      ensures config[..] == seq(ConfigSize, _ => 0)
      ensures fresh(config)
    {
      config := new uint8[ConfigSize](_ => 0);
      eeprom := rom;
    }

    /** `calculateChecksum`: the 8-bit running sum of bytes 0..37. */
    method CalculateChecksum() returns (sum: uint8)
      requires Valid()
      ensures sum == Checksum(config[..])
    {
      sum := 0;
      var i := 0;
      while i < ChecksumOffset
        invariant 0 <= i <= ChecksumOffset
        invariant sum == Wrap8(ByteSum(config[..i]))
      {
        assert config[..i + 1] == config[..i] + [config[i]];
        ByteSumAppend(config[..i], [config[i]]);
        assert ByteSum([config[i]]) == config[i] as nat by { assert [config[i]][..0] == []; }
        Wrap8Add(ByteSum(config[..i]), config[i] as int);
        sum := Wrap8(sum as int + config[i] as int);
        i := i + 1;
      }
      assert config[..][..ChecksumOffset] == config[..ChecksumOffset];
    }

    /** `load`: copies the stored record into RAM and accepts it when the magic
        and the checksum are right. */
    method Load() returns (ok: bool)
      requires Valid()
      modifies config
      ensures Valid() && eeprom == old(eeprom)
      ensures config[..] == eeprom[..ConfigSize]
      ensures ok == IsValidImage(eeprom[..ConfigSize])
    {
      forall k | 0 <= k < ConfigSize {
        config[k] := eeprom[k];
      }
      assert config[..] == eeprom[..ConfigSize];
      if config[0] != ConfigMagic {
        return false;
      }
      var expected := CalculateChecksum();
      ok := config[ChecksumOffset] == expected;
    }

    /** `save`: stamps magic and version, recomputes the checksum and writes the
        record to EEPROM. */
    method Save()
      requires Valid()
      modifies this, config
      ensures Valid()
      ensures config[..] == Stamp(old(config[..]))
      ensures eeprom == Stamp(old(config[..])) + old(eeprom)[ConfigSize..]
    {
      config[0] := ConfigMagic;
      config[1] := ConfigVersion;
      assert config[..] == old(config[..])[0 := ConfigMagic][1 := ConfigVersion];
      var sum := CalculateChecksum();
      config[ChecksumOffset] := sum;
      eeprom := config[..] + eeprom[ConfigSize..];
    }

    /** `loadDefaults`: assigns every field its default and recomputes the checksum. */
    method LoadDefaults()
      requires Valid()
      modifies config
      ensures Valid() && eeprom == old(eeprom)
      ensures config[..] == DefaultImage()
    {
      var fields := Image(DefaultSettings);
      forall k | 0 <= k < ChecksumOffset {
        config[k] := fields[k];
      }
      assert config[..ChecksumOffset] == fields[..ChecksumOffset];
      var sum := CalculateChecksum();
      assert sum == Checksum(fields) by {
        assert config[..][..ChecksumOffset] == fields[..ChecksumOffset];
      }
      config[ChecksumOffset] := sum;
      assert config[..] == fields[ChecksumOffset := sum];
    }

    /** `begin`: keeps the stored record when it loads, otherwise falls back to
        the defaults and saves them.  Either way RAM and EEPROM then agree on a
        valid record. */
    method Begin()
      requires Valid()
      modifies this, config
      ensures Valid()
      ensures IsValidImage(config[..]) && eeprom[..ConfigSize] == config[..]
      ensures IsValidImage(old(eeprom)[..ConfigSize]) ==>
        config[..] == old(eeprom)[..ConfigSize] && eeprom == old(eeprom)
      ensures !IsValidImage(old(eeprom)[..ConfigSize]) ==>
        config[..] == DefaultImage() && eeprom == DefaultImage() + old(eeprom)[ConfigSize..]
    {
      var ok := Load();
      if !ok {
        LoadDefaults();
        DefaultsValid();
        Save();
      }
    }

    /** `setIP`: overwrites the four device-address bytes; the checksum is left as it was. */
    method SetIP(a: uint8, b: uint8, c: uint8, d: uint8)
      requires Valid()
      modifies config
      ensures Valid() && eeprom == old(eeprom)
      ensures config[..] == SetQuad(old(config[..]), IpOffset, [a, b, c, d])
    {
      config[2] := a;
      config[3] := b;
      config[4] := c;
      config[5] := d;
    }

    /** `setBackendIP`: overwrites the four backend-address bytes; the checksum is
        left as it was. */
    method SetBackendIP(a: uint8, b: uint8, c: uint8, d: uint8)
      requires Valid()
      modifies config
      ensures Valid() && eeprom == old(eeprom)
      ensures config[..] == SetQuad(old(config[..]), BackendIpOffset, [a, b, c, d])
    {
      config[14] := a;
      config[15] := b;
      config[16] := c;
      config[17] := d;
    }
  }
}

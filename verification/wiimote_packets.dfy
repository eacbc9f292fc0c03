/** The control packets the Wiimote driver sends: the rumble bit every
    packet carries, the LED, reporting-mode and IR-mode requests, the memory
    read request and the memory write chunks, and the check that decides
    whether a device name is a Bluetooth address. */
module WiimotePackets {
  import opened Bytes
  import opened Wrappers
  import opened WiimoteReports

  /* ---------------------------------------------------------------- */
  /* Rumble bit                                                         */
  /* ---------------------------------------------------------------- */

  /** writePacket: forces bit 0 of byte 2 to the rumble flag before sending. */
  function WithRumble(packet: seq<Byte>, rumble: bool): (r: seq<Byte>)
    requires |packet| >= 3
    ensures |r| == |packet|
    ensures forall i :: 0 <= i < |packet| && i != 2 ==> r[i] == packet[i]
    ensures r[2] & 0xfe == packet[2] & 0xfe
    ensures (r[2] & 1 == 1) <==> rumble
  {
    packet[2 := if rumble then packet[2] | 0x01 else packet[2] & !0x01]
  }

  /** Setting the rumble bit twice is the same as setting it once with the
      later flag. */
  lemma WithRumbleLatestWins(packet: seq<Byte>, r1: bool, r2: bool)
    requires |packet| >= 3
    ensures WithRumble(WithRumble(packet, r1), r2) == WithRumble(packet, r2)
  {
  }

  /* ---------------------------------------------------------------- */
  /* Commands                                                           */
  /* ---------------------------------------------------------------- */

  /** What the driver does on the wire: write one packet (which then carries
      the rumble bit), or start a bulk write of data into the device's
      memory or register space. */
  datatype Command =
    | Write(packet: seq<Byte>)
    | Upload(toRegister: bool, address: int, data: seq<Byte>)

  /** The requested features and output state of the driver. */
  datatype Settings = Settings(
    continuous: bool,
    accelerometers: bool,
    irTracking: bool,
    rumble: bool,
    ledMask: int,
    extension: Extension)

  /** The packet actually sent for a Write under the given settings. */
  function Sent(c: Command, st: Settings): (r: seq<Byte>)
    requires c.Write? && |c.packet| >= 3
    ensures |r| == |c.packet|
  {
    WithRumble(c.packet, st.rumble)
  }

  /* ---------------------------------------------------------------- */
  /* LEDs                                                               */
  /* ---------------------------------------------------------------- */

  /** setLEDState: the four LED bits go to the high nibble of byte 2. */
  function LedPacket(mask: int): (p: seq<Byte>)
    ensures |p| == 3 && p[0] == 0x52 && p[1] == 0x11
    ensures p[2] as int == (mask % 16) * 16
  {
    NibbleShift(mask);
    [0x52, 0x11, LowByte(mask * 16)]
  }

  lemma NibbleShift(m: int)
    ensures (m * 16) % 256 == (m % 16) * 16
  {
    var q, r := m / 16, m % 16;
    assert m * 16 == 256 * q + 16 * r;
    assert 0 <= 16 * r < 256;
  }

  /** The LED bits and the rumble bit never interfere. */
  lemma LedPacketWithRumble(mask: int, rumble: bool)
    ensures var p := WithRumble(LedPacket(mask), rumble);
      (p[2] >> 4) as int == mask % 16 && ((p[2] & 1 == 1) <==> rumble)
  {
    var p := WithRumble(LedPacket(mask), rumble);
    assert p[2] & 0xfe == LedPacket(mask)[2];
  }

  /* ---------------------------------------------------------------- */
  /* Reporting mode                                                     */
  /* ---------------------------------------------------------------- */

  /** The report identifier setReportingMode requests. */
  function ReportingMode(ext: Extension, accel: bool, ir: bool): (id: Byte)
    ensures ext != NoExtension ==> id in {0x37, 0x35, 0x36, 0x32}
    ensures ext == NoExtension ==> id in {0x33, 0x31, 0x36, 0x30}
  {
    if ext != NoExtension then
      if accel && ir then 0x37 else if accel then 0x35 else if ir then 0x36 else 0x32
    else
      if accel && ir then 0x33 else if accel then 0x31 else if ir then 0x36 else 0x30
  }

  /** The requested report carries accelerometer data exactly when it was
      asked for, IR data exactly when it was asked for, and the extension
      block whenever an extension is present. */
  lemma ReportingModeLayout(ext: Extension, accel: bool, ir: bool)
    ensures ReportLayout(ReportingMode(ext, accel, ir)).Some?
    ensures var l := ReportLayout(ReportingMode(ext, accel, ir)).value;
      && (l.accel.Some? <==> accel)
      && (l.ir.Some? <==> ir)
      && (ext != NoExtension ==> l.ext.Some?)
  {
  }

  /** IR camera mode: extended (3) only when the report has room for the
      extended format, which is the case only without an extension and with
      accelerometers; basic (1) otherwise. */
  function IRModeByte(ext: Extension, accel: bool, ir: bool): (b: Byte)
    ensures b == 0x01 || b == 0x03
    ensures b == 0x03 <==> ext == NoExtension && accel && ir
  {
    if ext == NoExtension && accel && ir then 0x03 else 0x01
  }

  /** The camera is set to the format that the requested report decodes. */
  lemma IRModeMatchesLayout(ext: Extension, accel: bool, ir: bool)
    requires ir
    ensures ReportLayout(ReportingMode(ext, accel, ir)).Some?
    ensures var l := ReportLayout(ReportingMode(ext, accel, ir)).value;
      l.ir.Some? && (IRModeByte(ext, accel, ir) == 0x03 <==> l.ir.value.0 == ExtendedIR)
  {
  }

  /** The data-reporting request: continuous reporting is bit 2 of byte 2,
      the report identifier byte 3. */
  function ReportRequest(st: Settings): (p: seq<Byte>)
    ensures |p| == 4 && p[0] == 0x52 && p[1] == 0x12
    ensures p[2] & 0xfb == 0
    ensures (p[2] & 0x04 != 0) <==> st.continuous
    ensures p[3] == ReportingMode(st.extension, st.accelerometers, st.irTracking)
  {
    [0x52, 0x12, if st.continuous then 0x04 else 0x00, ReportingMode(st.extension, st.accelerometers, st.irTracking)]
  }

  const IRModeAddress: int := 0xb00033

  /** The register write of the IR mode byte as one packet, used when
      setReportingMode runs on the receiving side. */
  function IRModePacket(st: Settings): (p: seq<Byte>)
    ensures |p| == 23
    ensures p[..7] == [0x52, 0x16, 0x04, 0xb0, 0x00, 0x33, 0x01]
    ensures p[7] == IRModeByte(st.extension, st.accelerometers, st.irTracking)
    ensures forall i :: 8 <= i < 23 ==> p[i] == 0
  {
    [0x52, 0x16, 0x04, 0xb0, 0x00, 0x33, 0x01, IRModeByte(st.extension, st.accelerometers, st.irTracking)]
      + seq(15, _ => 0)
  }

  /** setReportingMode: the IR camera mode (when IR is requested), then the
      report request. Inside the receiver the IR mode goes out as one
      packet; otherwise it is a one-byte bulk write. */
  function SetReportingMode(st: Settings, insideReader: bool): (cs: seq<Command>)
    ensures |cs| == if st.irTracking then 2 else 1
    ensures cs[|cs| - 1] == Write(ReportRequest(st))
    ensures st.irTracking && insideReader ==> cs[0] == Write(IRModePacket(st))
    ensures st.irTracking && !insideReader ==>
      cs[0] == Upload(true, IRModeAddress, [IRModeByte(st.extension, st.accelerometers, st.irTracking)])
  {
    var irMode :=
      if !st.irTracking then []
      else if insideReader then [Write(IRModePacket(st))]
      else [Upload(true, IRModeAddress, [IRModeByte(st.extension, st.accelerometers, st.irTracking)])];
    irMode + [Write(ReportRequest(st))]
  }

  /** The packet form and the bulk-write form of the IR mode write carry
      the same register address and byte. */
  lemma IRModePacketIsOneChunk(st: Settings)
    ensures IRModePacket(st) == UploadPacket(true, IRModeAddress, [IRModeByte(st.extension, st.accelerometers, st.irTracking)])
  {
    var b := IRModeByte(st.extension, st.accelerometers, st.irTracking);
    var u := UploadPacket(true, IRModeAddress, [b]);
    assert u[3] == 0xb0 && u[4] == 0x00 && u[5] == 0x33;
    assert IRModePacket(st) == u;
  }

  /** setRumble, requestContinuousReports, requestAccelerometers: store the
      flag, then set the reporting mode. */
  function SetRumble(st: Settings, enable: bool): (r: (Settings, seq<Command>))
    ensures r.0 == st.(rumble := enable)
    ensures r.1 == SetReportingMode(r.0, false)
  {
    var s := st.(rumble := enable);
    (s, SetReportingMode(s, false))
  }

  function RequestContinuousReports(st: Settings, enable: bool): (r: (Settings, seq<Command>))
    ensures r.0 == st.(continuous := enable)
    ensures r.1 == SetReportingMode(r.0, false)
  {
    var s := st.(continuous := enable);
    (s, SetReportingMode(s, false))
  }

  function RequestAccelerometers(st: Settings, enable: bool): (r: (Settings, seq<Command>))
    ensures r.0 == st.(accelerometers := enable)
    ensures r.1 == SetReportingMode(r.0, false)
  {
    var s := st.(accelerometers := enable);
    (s, SetReportingMode(s, false))
  }

  /** The IR camera's start-up sequence: two enable packets and four
      register writes (enable, two sensitivity blocks, mode). */
  function IRCameraOn(): (cs: seq<Command>)
    ensures |cs| == 6
    ensures forall i :: 0 <= i < 2 ==> cs[i].Write? && |cs[i].packet| == 3 && cs[i].packet[2] == 0x04
    ensures forall i :: 2 <= i < 6 ==> cs[i].Upload? && cs[i].toRegister && |cs[i].data| <= MaxChunk
    ensures cs[2].address == cs[5].address && cs[2].data != cs[5].data
  {
    [ Write([0x52, 0x13, 0x04]),
      Write([0x52, 0x1a, 0x04]),
      Upload(true, 0xb00030, [0x01]),
      Upload(true, 0xb00000, [0x02, 0x00, 0x00, 0x71, 0x01, 0x00, 0xaa, 0x00, 0x64]),
      Upload(true, 0xb0001a, [0x63, 0x03]),
      Upload(true, 0xb00030, [0x08]) ]
  }

  /** A register write the device reads back unchanged from the one packet
      it is sent in. */
  predicate ReadsBackIntact(c: Command)
  {
    c.Upload? && |c.data| <= MaxChunk && 0 <= c.address &&
    ParseUploadPacket(UploadPacket(c.toRegister, c.address, c.data)) == Some(WriteChunk(c.toRegister, c.address, c.data))
  }

  lemma RegisterWriteReadsBack(c: Command)
    requires c.Upload? && |c.data| <= MaxChunk && 0 <= c.address < 0x100_0000
    ensures ReadsBackIntact(c)
  {
    UploadPacketRoundTrip(c.toRegister, c.address, c.data);
    assert c.address % 0x100_0000 == c.address;
  }

  /** Each register write of the start-up sequence fits in one chunk, and
      the camera reads back the register address and the bytes unchanged. */
  lemma IRCameraOnRegisters()
    ensures ReadsBackIntact(IRCameraOn()[2]) && ReadsBackIntact(IRCameraOn()[3])
    ensures ReadsBackIntact(IRCameraOn()[4]) && ReadsBackIntact(IRCameraOn()[5])
  {
    var cs := IRCameraOn();
    RegisterWriteReadsBack(cs[2]);
    RegisterWriteReadsBack(cs[3]);
    RegisterWriteReadsBack(cs[4]);
    RegisterWriteReadsBack(cs[5]);
  }

  /** Stopping the camera writes the same two control packets as starting
      it, with the enable bit cleared. */
  function IRCameraOff(): (cs: seq<Command>)
    ensures |cs| == 2
    ensures forall i :: 0 <= i < 2 ==>
      cs[i].Write? && IRCameraOn()[i].Write? &&
      cs[i].packet == IRCameraOn()[i].packet[..2] + [IRCameraOn()[i].packet[2] & 0xfb]
  {
    [Write([0x52, 0x13, 0x00]), Write([0x52, 0x1a, 0x00])]
  }

  /** requestIRTracking: the camera is started or stopped only on a change
      of the flag; the reporting mode is set in every case. */
  function RequestIRTracking(st: Settings, enable: bool): (r: (Settings, seq<Command>))
    ensures r.0 == st.(irTracking := enable)
    ensures enable && !st.irTracking ==> r.1 == IRCameraOn() + SetReportingMode(r.0, false)
    ensures !enable && st.irTracking ==> r.1 == IRCameraOff() + SetReportingMode(r.0, false)
    ensures enable == st.irTracking ==> r.1 == SetReportingMode(r.0, false)
  {
    var camera := if enable && !st.irTracking then IRCameraOn() else if !enable && st.irTracking then IRCameraOff() else [];
    var s := st.(irTracking := enable);
    (s, camera + SetReportingMode(s, false))
  }

  /* ---------------------------------------------------------------- */
  /* Memory read request                                                */
  /* ---------------------------------------------------------------- */

  /** Big-endian bytes of the low 24 bits of an address; a C `int` shifted
      right arithmetically, which is floor division by 256. */
  function Address24(address: int): (s: seq<Byte>)
    ensures |s| == 3
  {
    [LowByte(address / 0x1_0000), LowByte(address / 0x100), LowByte(address)]
  }

  function BE24(s: seq<Byte>, i: nat): (v: nat)
    requires i + 3 <= |s|
    ensures v < 0x100_0000
  {
    s[i] as int * 0x1_0000 + s[i + 1] as int * 0x100 + s[i + 2] as int
  }

  /** The three bytes are the base-256 digits of the address modulo 2^24. */
  lemma Address24RoundTrip(address: int)
    ensures BE24(Address24(address), 0) == address % 0x100_0000
  {
    var q2, lo := address / 0x100, address % 0x100;
    var q1, mid := q2 / 0x100, q2 % 0x100;
    var k, hi := q1 / 0x100, q1 % 0x100;
    assert address == 0x1_0000 * q1 + (0x100 * mid + lo);
    assert address / 0x1_0000 == q1;
    assert address == 0x100_0000 * k + (0x1_0000 * hi + 0x100 * mid + lo);
    assert address % 0x100_0000 == 0x1_0000 * hi + 0x100 * mid + lo;
  }

  /** downloadData's request: bit 2 of byte 2 selects the register space,
      bytes 3-5 hold the address and bytes 6-7 the length, big-endian. */
  function DownloadRequest(fromRegister: bool, address: int, size: nat): (p: seq<Byte>)
    ensures |p| == 8 && p[0] == 0x52 && p[1] == 0x17
    ensures p[2] == if fromRegister then 0x04 else 0x00
  {
    [ 0x52, 0x17, if fromRegister then 0x04 else 0x00,
      LowByte(address / 0x1_0000), LowByte(address / 0x100), LowByte(address),
      LowByte(size / 0x100), LowByte(size) ]
  }

  /** What the device reads from a memory read request. */
  datatype ReadRequest = ReadRequest(fromRegister: bool, address: nat, size: nat)

  function ParseDownloadRequest(p: seq<Byte>): (r: Option<ReadRequest>)
    ensures r.Some? ==> r.value.address < 0x100_0000 && r.value.size < TwoTo16
  {
    if |p| == 8 && p[0] == 0x52 && p[1] == 0x17 && p[2] & 0xfb == 0 then
      Some(ReadRequest(p[2] == 0x04, BE24(p, 3), p[6] as int * 0x100 + p[7] as int))
    else None
  }

  /** The device reads back the space, the low 24 bits of the address and
      the low 16 bits of the length. */
  lemma DownloadRequestRoundTrip(fromRegister: bool, address: int, size: nat)
    ensures ParseDownloadRequest(DownloadRequest(fromRegister, address, size))
         == Some(ReadRequest(fromRegister, address % 0x100_0000, size % TwoTo16))
  {
    var p := DownloadRequest(fromRegister, address, size);
    Address24RoundTrip(address);
    assert p[3..6] == Address24(address);
    assert BE24(p, 3) == BE24(Address24(address), 0);
    LowSixteenBits(size);
  }

  /** The low 16 bits of n are its second-lowest byte times 256 plus its
      lowest byte. */
  lemma LowSixteenBits(n: nat)
    ensures n % TwoTo16 == 0x100 * ((n / 0x100) % 0x100) + n % 0x100
  {
    var q, lo := n / 0x100, n % 0x100;
    var hi, mid := q / 0x100, q % 0x100;
    assert n == 0x100 * q + lo;
    assert q == 0x100 * hi + mid;
    var low := 0x100 * mid + lo;
    assert 0 <= low < 0x1_0000;
    assert n == 0x1_0000 * hi + low;
    ModOfDecomposition(n, hi, low);
  }

  lemma ModOfDecomposition(n: int, hi: int, low: int)
    requires n == 0x1_0000 * hi + low && 0 <= low < 0x1_0000
    ensures n % TwoTo16 == low
  {
    var k, r := n / 0x1_0000, n % 0x1_0000;
    assert n == 0x1_0000 * k + r && 0 <= r < 0x1_0000;
    assert 0x1_0000 * (k - hi) == low - r;
  }

  /* ---------------------------------------------------------------- */
  /* Memory write chunks                                                */
  /* ---------------------------------------------------------------- */

  const MaxChunk: nat := 16

  /** writeUploadPacket: a 23-byte packet with the space bit, the address,
      the chunk length in byte 6 and up to 16 data bytes from byte 7. */
  function UploadPacket(toRegister: bool, address: int, chunk: seq<Byte>): (p: seq<Byte>)
    requires |chunk| <= MaxChunk
    ensures |p| == 23 && p[0] == 0x52 && p[1] == 0x16
    ensures p[2] == if toRegister then 0x04 else 0x00
    ensures p[3..6] == Address24(address)
    ensures p[6] as int == |chunk|
    ensures p[7..7 + |chunk|] == chunk
    ensures forall i :: 7 + |chunk| <= i < 23 ==> p[i] == 0
  {
    var p := [0x52, 0x16, if toRegister then 0x04 else 0x00] + Address24(address) + [|chunk| as Byte]
             + chunk + seq(16 - |chunk|, _ => 0);
    assert p[7..7 + |chunk|] == chunk;
    p
  }

  /** What the device reads from a write chunk. */
  datatype WriteChunk = WriteChunk(toRegister: bool, address: nat, data: seq<Byte>)

  function ParseUploadPacket(p: seq<Byte>): (r: Option<WriteChunk>)
    ensures r.Some? ==> |r.value.data| <= MaxChunk && r.value.address < 0x100_0000
  {
    if |p| == 23 && p[0] == 0x52 && p[1] == 0x16 && p[2] & 0xfb == 0 && p[6] as int <= MaxChunk then
      Some(WriteChunk(p[2] == 0x04, BE24(p, 3), p[7..7 + p[6] as int]))
    else None
  }

  lemma UploadPacketRoundTrip(toRegister: bool, address: int, chunk: seq<Byte>)
    requires |chunk| <= MaxChunk
    ensures ParseUploadPacket(UploadPacket(toRegister, address, chunk))
         == Some(WriteChunk(toRegister, address % 0x100_0000, chunk))
  {
    var p := UploadPacket(toRegister, address, chunk);
    Address24RoundTrip(address);
    assert BE24(p, 3) == BE24(Address24(address), 0);
  }

  /* ---------------------------------------------------------------- */
  /* Bluetooth address check                                            */
  /* ---------------------------------------------------------------- */

  predicate IsHexDigit(c: char)
  {
    ('0' <= c <= '9') || ('a' <= c <= 'f') || ('A' <= c <= 'F')
  }

  /** The shape the constructor accepts as an address: a colon at every
      third position, hexadecimal digits elsewhere, any length. */
  predicate AddressShape(name: string)
  {
    forall i :: 0 <= i < |name| ==> if i % 3 == 2 then name[i] == ':' else IsHexDigit(name[i])
  }

  /** The constructor's scan of the device name (a C string, given up to its
      terminating NUL; a null name is None). */
  method IsAddress(name: Option<string>) returns (isAddress: bool)
    ensures isAddress <==> name.Some? && AddressShape(name.value)
  {
    if name.None? {
      return false;
    }
    var s := name.value;
    isAddress := true;
    var i := 0;
    while i < |s| && isAddress
      invariant 0 <= i <= |s|
      invariant isAddress <==> forall j :: 0 <= j < i ==> if j % 3 == 2 then s[j] == ':' else IsHexDigit(s[j])
      invariant !isAddress ==> !AddressShape(s)
    {
      if i % 3 == 2 {
        if s[i] != ':' {
          isAddress := false;
        }
      } else if !IsHexDigit(s[i]) {
        isAddress := false;
      }
      i := i + 1;
    }
  }

  /** Examples: a full address, a truncated one and the empty name pass;
      a misplaced separator does not. */
  lemma AddressShapeExamples()
    ensures AddressShape("00:1F:C5:3A:9B:01")
    ensures AddressShape("00:1")
    ensures AddressShape("")
    ensures !AddressShape("001:F")
  {
    assert "001:F"[2] == '1';
  }
}

/** The Wiimote receiving loop as one step per incoming packet: framing,
    dispatch on the report identifier, status handling with the extension
    negotiation, and the bulk-transfer replies. */
module WiimoteReceiver {
  import opened Bytes
  import opened Wrappers
  import opened WiimoteReports
  import opened WiimotePackets
  import opened WiimoteTransfer

  /** Everything the receiving loop reads and writes. */
  datatype Device = Device(
    core: CoreState,
    settings: Settings,
    needCalibration: bool,
    download: Download,
    upload: Upload)

  ghost predicate ValidDevice(dev: Device)
  {
    WellFormed(dev.core) && dev.settings.extension == dev.core.extension && ValidDownload(dev.download)
  }

  /** The packet the status handler reads while it negotiates with a
      connected extension: the reply to the type query. (The calibration
      reply only feeds floating-point calibration.) */
  datatype Negotiation = Negotiation(typeReply: seq<Byte>)

  /** The result of one step: the new state, the commands sent, and whether
      the event callbacks ran and the listeners were woken. */
  datatype Step = Step(device: Device, commands: seq<Command>, event: bool)

  const EnableExtension: seq<Byte> :=
    [0x52, 0x16, 0x04, 0xa4, 0x00, 0x40, 0x01, 0x00, 0x00, 0x00, 0x00, 0x00,
     0x00, 0x00, 0x00, 0x00, 0x00, 0x00, 0x00, 0x00, 0x00, 0x00, 0x00]
  const QueryExtensionType: seq<Byte> := [0x52, 0x17, 0x04, 0xa4, 0x00, 0xfe, 0x00, 0x02]
  const QueryCalibration: seq<Byte> := [0x52, 0x17, 0x04, 0xa4, 0x00, 0x20, 0x00, 0x10]

  /** What the Wiimote reads from the three negotiation packets: a
      one-byte write of zero to extension register 0xa40040, and reads of
      two bytes at 0xa400fe (the type) and sixteen at 0xa40020 (the
      calibration block). */
  lemma EnableExtensionDecodes()
    ensures ParseUploadPacket(EnableExtension) == Some(WriteChunk(true, 0xa40040, [0x00]))
  {
    var p := EnableExtension;
    assert p[2] & 0xfb == 0 && p[2] == 0x04 && p[6] == 1;
    assert BE24(p, 3) == 0xa40040;
    assert p[7..8] == [0x00];
  }

  lemma QueryExtensionTypeDecodes()
    ensures ParseDownloadRequest(QueryExtensionType) == Some(ReadRequest(true, 0xa400fe, 2))
  {
    var p := QueryExtensionType;
    assert p[2] & 0xfb == 0 && p[2] == 0x04;
    assert BE24(p, 3) == 0xa400fe;
  }

  lemma QueryCalibrationDecodes()
    ensures ParseDownloadRequest(QueryCalibration) == Some(ReadRequest(true, 0xa40020, 0x10))
  {
    var p := QueryCalibration;
    assert p[2] & 0xfb == 0 && p[2] == 0x04;
    assert BE24(p, 3) == 0xa40020;
  }

  /** The packets the status handler writes to negotiate with a connected
      extension: enable it, query its type and, for a nunchuk that still
      needs calibration, query the calibration block. */
  function NegotiationCommands(found: Extension, needCalibration: bool): (cs: seq<Command>)
    ensures 2 <= |cs| <= 3
    ensures cs[..2] == [Write(EnableExtension), Write(QueryExtensionType)]
    ensures Write(QueryCalibration) in cs <==> found == Nunchuk && needCalibration
  {
    [Write(EnableExtension), Write(QueryExtensionType)]
      + (if found == Nunchuk && needCalibration then [Write(QueryCalibration)] else [])
  }

  /** The 0x20 status report: battery level, extension negotiation or
      reset, then the reporting mode is set again from inside the reader. */
  function HandleStatus(dev: Device, packet: seq<Byte>, nego: Negotiation): (r: Step)
    requires ValidDevice(dev) && |packet| == ReportBuffer && |nego.typeReply| >= 9
    ensures ValidDevice(r.device) && r.event
    ensures r.device.core.battery == packet[7] as int
    ensures r.device.download == dev.download && r.device.upload == dev.upload
    ensures r.device.needCalibration == dev.needCalibration
    ensures r.device.settings == dev.settings.(extension := r.device.core.extension)
    ensures packet[4] & 0x02 == 0 ==>
      && r.device.core == StatusWithoutExtension(dev.core, packet)
      && r.commands == SetReportingMode(r.device.settings, true)
    ensures packet[4] & 0x02 != 0 ==>
      && r.device.core == StatusWithExtension(dev.core, packet, nego.typeReply)
      && r.device.core.extension == ExtensionFromCode(TypeCode(nego.typeReply), dev.core.extension)
      && r.commands == NegotiationCommands(r.device.core.extension, dev.needCalibration)
                       + SetReportingMode(r.device.settings, true)
  {
    var core :=
      if packet[4] & 0x02 != 0 then StatusWithExtension(dev.core, packet, nego.typeReply)
      else StatusWithoutExtension(dev.core, packet);
    var settings := dev.settings.(extension := core.extension);
    var negotiation :=
      if packet[4] & 0x02 != 0 then NegotiationCommands(core.extension, dev.needCalibration) else [];
    Step(dev.(core := core, settings := settings), negotiation + SetReportingMode(settings, true), true)
  }

  /** The copy loop reads reply data from byte 7 up to byte 6 + count: a
      reply carrying 15 or 16 bytes reads past the end of the declared
      21-byte receive buffer. */
  lemma ReplyOverrunsDeclaredBuffer(packet: seq<Byte>)
    requires |packet| == 23 && ReplyCount(packet) >= 15
    ensures 7 + ReplyCount(packet) > DeclaredReceiveBuffer
  {
  }

  /** Every reply's data lies inside the 23-byte report buffer; inside the
      declared 21 bytes exactly when it carries at most 14 bytes. */
  lemma ReplyFitsReportBuffer(packet: seq<Byte>)
    requires |packet| == 23
    ensures 7 + ReplyCount(packet) <= ReportBuffer
    ensures 7 + ReplyCount(packet) <= DeclaredReceiveBuffer <==> ReplyCount(packet) <= 14
  {
  }

  /** One iteration of the receiving loop for a read of `size` bytes.
      `packet` holds the 21-byte receive buffer followed by the two bytes of
      memory just past it, which the 0x37 and 0x21 handlers read when a
      report is longer than the buffer (Report37OverrunsDeclaredBuffer,
      ReplyOverrunsDeclaredBuffer). Read replies go to the handler as
      written, with its wrapping count. */
  function ProcessPacket(dev: Device, packet: seq<Byte>, size: int, nego: Negotiation): (r: Step)
    requires ValidDevice(dev) && |packet| == ReportBuffer && |nego.typeReply| >= 9
    ensures ValidDevice(r.device)
    ensures r.event <==> size > 0 && packet[0] == 0xa1
    ensures !r.event ==> r == Step(dev, [], false)
    ensures packet[1] != 0x20 ==> r.device.settings == dev.settings && r.device.core.extension == dev.core.extension
    ensures packet[1] != 0x21 ==> r.device.download == dev.download
    ensures packet[1] != 0x22 ==> r.device.upload == dev.upload
    ensures packet[1] != 0x20 && packet[1] != 0x22 ==> r.commands == []
    ensures r.event && packet[1] in {0x21, 0x22} ==> r.device.core == dev.core.(buttons := CoreButtons(packet[2], packet[3]))
    ensures r.event && packet[1] == 0x20 ==> r == HandleStatus(dev, packet, nego)
    ensures r.event && packet[1] == 0x21 ==> r.device.download == DownloadReplyAsWritten(dev.download, packet).0
    // the wake-up the handler broadcasts to the requester is not kept, but
    // the resulting state shows it: an error, or nothing left to read
    ensures r.event && packet[1] == 0x21 && dev.download.active ==>
      (DownloadReplyAsWritten(dev.download, packet).1 <==> r.device.download.error != 0 || r.device.download.remaining == 0)
    ensures r.event && packet[1] == 0x22 ==>
      var (u, sent) := UploadAck(dev.upload, packet);
      r.device.upload == u && r.commands == (if sent.Some? then [Write(sent.value)] else [])
    ensures r.event && ReportLayout(packet[1]).Some? ==>
      r.device.core == DecodeFields(dev.core, ReportLayout(packet[1]).value, packet, dev.settings.accelerometers)
    ensures r.event && packet[1] !in {0x20, 0x21, 0x22} && ReportLayout(packet[1]).None? ==> r.device == dev
  {
    if !(size > 0 && packet[0] == 0xa1) then Step(dev, [], false)
    else
      var id := packet[1];
      if id == 0x20 then HandleStatus(dev, packet, nego)
      else if id == 0x21 then
        var core := dev.core.(buttons := CoreButtons(packet[2], packet[3]));
        var (d, _) := DownloadReplyAsWritten(dev.download, packet);
        Step(dev.(core := core, download := d), [], true)
      else if id == 0x22 then
        var core := dev.core.(buttons := CoreButtons(packet[2], packet[3]));
        var (u, sent) := UploadAck(dev.upload, packet);
        Step(dev.(core := core, upload := u), if sent.Some? then [Write(sent.value)] else [], true)
      else if ReportLayout(id).Some? then
        LayoutsFitReportBuffer(id);
        Step(dev.(core := DecodeFields(dev.core, ReportLayout(id).value, packet, dev.settings.accelerometers)), [], true)
      else
        Step(dev, [], true)
  }

  /** One read of the receiving loop: the buffer, the byte count `read`
      returned, and the type reply the status handler reads if this read
      is a status report announcing an extension. */
  datatype Read = Read(packet: seq<Byte>, size: int, nego: Negotiation)

  ghost predicate ValidReads(inputs: seq<Read>)
  {
    forall i :: 0 <= i < |inputs| ==> |inputs[i].packet| == ReportBuffer && |inputs[i].nego.typeReply| >= 9
  }

  /** The device state after a sequence of inputs, and every command the
      loop wrote along the way. */
  function RunPackets(dev: Device, inputs: seq<Read>): (r: (Device, seq<Command>))
    requires ValidDevice(dev) && ValidReads(inputs)
    ensures ValidDevice(r.0)
    decreases |inputs|
  {
    if |inputs| == 0 then (dev, [])
    else
      var step := ProcessPacket(dev, inputs[0].packet, inputs[0].size, inputs[0].nego);
      var (final, later) := RunPackets(step.device, inputs[1..]);
      (final, step.commands + later)
  }

  /** A packet that does not start with the 0xa1 input-report header, or an
      empty read, changes nothing, however often it arrives. */
  lemma {:induction false} IgnoredPacketsChangeNothing(dev: Device, inputs: seq<Read>)
    requires ValidDevice(dev) && ValidReads(inputs)
    requires forall i :: 0 <= i < |inputs| ==> inputs[i].size <= 0 || inputs[i].packet[0] != 0xa1
    ensures RunPackets(dev, inputs) == (dev, [])
    decreases |inputs|
  {
    if |inputs| > 0 {
      assert ProcessPacket(dev, inputs[0].packet, inputs[0].size, inputs[0].nego) == Step(dev, [], false);
      IgnoredPacketsChangeNothing(dev, inputs[1..]);
      var step := ProcessPacket(dev, inputs[0].packet, inputs[0].size, inputs[0].nego);
      assert RunPackets(dev, inputs).1 == step.commands + RunPackets(dev, inputs[1..]).1;
      assert RunPackets(dev, inputs).0 == dev;
      assert RunPackets(dev, inputs).1 == [];
    }
  }

  /** Reads that are all read replies (0x21) drive the bulk read exactly as
      the handler as written does over the same replies, write nothing and
      leave the write and the settings alone. */
  lemma {:induction false} ReadRepliesFollowDownload(dev: Device, inputs: seq<Read>, replies: seq<seq<Byte>>)
    requires ValidDevice(dev) && ValidReads(inputs) && |replies| == |inputs|
    requires forall i :: 0 <= i < |inputs| ==>
      && inputs[i].packet == replies[i] && inputs[i].size > 0 && replies[i][0] == 0xa1 && replies[i][1] == 0x21
    ensures RunPackets(dev, inputs).0.download == RunDownloadAsWritten(dev.download, replies).0
    ensures RunPackets(dev, inputs).0.upload == dev.upload
    ensures RunPackets(dev, inputs).0.settings == dev.settings
    ensures RunPackets(dev, inputs).1 == []
    decreases |inputs|
  {
    if |inputs| > 0 {
      var step := ProcessPacket(dev, inputs[0].packet, inputs[0].size, inputs[0].nego);
      ReadRepliesFollowDownload(step.device, inputs[1..], replies[1..]);
    }
  }

  /** The write packets of a sequence of packets. */
  function Writes(packets: seq<seq<Byte>>): (cs: seq<Command>)
    ensures |cs| == |packets|
    ensures forall i :: 0 <= i < |packets| ==> cs[i] == Write(packets[i])
  {
    seq(|packets|, i requires 0 <= i < |packets| => Write(packets[i]))
  }

  lemma WritesAppend(a: seq<seq<Byte>>, b: seq<seq<Byte>>)
    ensures Writes(a + b) == Writes(a) + Writes(b)
  {
  }

  /** Feeding acknowledgements to a write, active or not: the first one's
      chunk, then whatever the rest send. */
  lemma RunUploadFirst(u: WiimoteTransfer.Upload, acks: seq<seq<Byte>>)
    requires |acks| >= 1
    requires forall i :: 0 <= i < |acks| ==> |acks[i]| >= 6
    ensures var (u1, sent) := UploadAck(u, acks[0]);
      var rest := RunUpload(u1, acks[1..]);
      RunUpload(u, acks) == (rest.0, (if sent.Some? then [sent.value] else []) + rest.1)
  {
    if u.active {
      RunUploadCons(u, acks);
    } else {
      assert RunUpload(u, acks[1..]) == (u, []);
      assert [] + RunUpload(u, acks[1..]).1 == [];
    }
  }

  /** One write acknowledgement: the loop hands it to the write and writes
      the chunk it sends, if any. */
  lemma AckStep(dev: Device, r: Read)
    requires ValidDevice(dev) && |r.packet| == ReportBuffer && |r.nego.typeReply| >= 9
    requires r.size > 0 && r.packet[0] == 0xa1 && r.packet[1] == 0x22
    ensures var step := ProcessPacket(dev, r.packet, r.size, r.nego);
      var (u1, sent) := UploadAck(dev.upload, r.packet);
      && step.device.upload == u1 && step.commands == Writes(if sent.Some? then [sent.value] else [])
      && step.device.download == dev.download && step.device.settings == dev.settings
  {
  }

  /** The run is the first step, then the run over the rest. */
  lemma RunPacketsCons(dev: Device, inputs: seq<Read>)
    requires ValidDevice(dev) && ValidReads(inputs) && |inputs| > 0
    ensures var step := ProcessPacket(dev, inputs[0].packet, inputs[0].size, inputs[0].nego);
      ValidReads(inputs[1..]) &&
      RunPackets(dev, inputs) == (RunPackets(step.device, inputs[1..]).0, step.commands + RunPackets(step.device, inputs[1..]).1)
  {
    assert forall i :: 0 <= i < |inputs[1..]| ==> inputs[1..][i] == inputs[i + 1];
  }

  /** Reads that are all write acknowledgements (0x22) drive the bulk write
      exactly as the transfer model does over the same acknowledgements:
      the loop writes exactly the chunks it sends, and leaves the read and
      the settings alone. */
  lemma {:induction false} AcksFollowUpload(dev: Device, inputs: seq<Read>, acks: seq<seq<Byte>>)
    requires ValidDevice(dev) && ValidReads(inputs) && |acks| == |inputs|
    requires forall i :: 0 <= i < |inputs| ==>
      && inputs[i].packet == acks[i] && inputs[i].size > 0 && acks[i][0] == 0xa1 && acks[i][1] == 0x22
    ensures RunPackets(dev, inputs).0.upload == RunUpload(dev.upload, acks).0
    ensures RunPackets(dev, inputs).1 == Writes(RunUpload(dev.upload, acks).1)
    ensures RunPackets(dev, inputs).0.download == dev.download
    ensures RunPackets(dev, inputs).0.settings == dev.settings
    decreases |inputs|
  {
    if |inputs| > 0 {
      var r := inputs[0];
      assert r.packet == acks[0];
      AckStep(dev, r);
      var step := ProcessPacket(dev, r.packet, r.size, r.nego);
      var (u1, sent) := UploadAck(dev.upload, acks[0]);
      var first := if sent.Some? then [sent.value] else [];
      RunPacketsCons(dev, inputs);
      forall i | 0 <= i < |inputs[1..]|
        ensures inputs[1..][i].packet == acks[1..][i] && inputs[1..][i].size > 0
        ensures acks[1..][i][0] == 0xa1 && acks[1..][i][1] == 0x22
      {
        assert inputs[1..][i] == inputs[i + 1] && acks[1..][i] == acks[i + 1];
      }
      AcksFollowUpload(step.device, inputs[1..], acks[1..]);
      var tail := RunUpload(u1, acks[1..]);
      assert forall i :: 0 <= i < |acks| ==> |acks[i]| >= 6 by {
        forall i | 0 <= i < |acks| ensures |acks[i]| >= 6 {
          assert acks[i] == inputs[i].packet;
        }
      }
      RunUploadFirst(dev.upload, acks);
      WritesAppend(first, tail.1);
    }
  }
}

# Verified models of the integer and byte-level core of a VR toolkit

This project models in Dafny the parts of the VR toolkit and its device daemon that work on integers and bytes, and proves their properties. Geometry, rendering, threads and I/O are left out.

- **Wiimote protocol** (`bytes.dfy`, `wiimote_reports.dfy`, `wiimote_packets.dfy`, `wiimote_transfer.dfy`, `wiimote_receiver.dfy`). It covers:
  - the input reports: button compaction, accelerometer bits, the extension byte transform and type codes, basic and extended IR targets, and the report-ID to field-offset table;
  - the outgoing control packets: rumble bit, LED byte, reporting mode, IR camera set-up, download requests and 16-byte upload chunks;
  - the memory download and upload bookkeeping, driven by reply and acknowledgement packets;
  - the receiver's dispatch of incoming packets, with the read-reply handler as the code has it (its wrapping count), over the 21-byte receive buffer followed by the two bytes of memory past it that the longest reports reach;
  - the Bluetooth address check.
- **ZIP archive** (`octets.dfy`, `zip_archive.dfy`, `zip_records.dfy`, `zip_directory.dfy`). It covers:
  - the backward search for the End of Central Directory record and the archive's consistency checks;
  - the central directory walk, findFile and openFile's header arithmetic;
  - records as an archiver writes them, read back field by field, following sections 4.3.7, 4.3.12 and 4.3.16 of PKWARE's APPNOTE.TXT;
  - the in-archive directory: its listing filter, cursor, name, parent and subdirectory paths.
- **TripleBuffer** (`triple_buffer.dfy`): the three-slot index protocol between one writer and one reader, and its refinement of a simple "latest value" model.
- **VRWindow helpers** (`vr_window.dfy`, `power_of_two.dfy`): the window-type codec, the interleave pattern and its polygon stipples, power-of-two texture sizes, the interleaved-stereo eye index, autostereoscopic tiles, and the frame-rate text.
- **Input-device playback** (`playback.dfy`, `movie_template.dfy`): the file header, the per-frame record read order, the `done` and `firstFrame` flags, and the movie file-name template check.
- **Two-handed navigation** (`two_handed_nav.dfy`): the IDLE/MOVING/SCALING mode machine.
- **ArrayKdTree** (`kd_tree.dfy`): the prefix traversal's index arithmetic.
- **Glyph** (`glyph.dfy`): its state and configuration.
- **ControlKey** (`control_key.dfy`): its inequality and hash.

Bytes on the Wiimote side are `bv8`, because the decoders work bit by bit. ZIP bytes are integers in 0..255, because the reader only assembles little-endian numbers from them.

Facts about the code that the model makes explicit:
- An unrecognised extension type code leaves the extension type unchanged.
- A zero-length download never completes as written. The corrected model completes it at once, as recorded under Findings.
- The extension byte transform `(b ^ 0x17) + 0x17` is a bijection on bytes, and the model proves its inverse.
- The core accelerometers have 9 significant bits (`(byte << 1) | bit`).
- The button field has 13 bits: 11 core buttons and the nunchuk's Z and C.

## Model

| member | source | states |
|---|---|---|
| Bytes.SizeSub | VRDeviceDaemon/Wiimote.cpp:436 | subtraction of two `size_t` values: the difference when it is non-negative, the difference plus 2^64 otherwise |
| Bytes.ToInt32 | VRDeviceDaemon/Wiimote.cpp:432 | `int(downloadSize)`: a 32-bit two's-complement value congruent to the input modulo 2^32, equal to it below 2^31 |
| WiimoteReports.ButtonIndicesDistinct | VRDeviceDaemon/Wiimote.h:49-57 | the thirteen Button enumerators have distinct values below 13 |
| WiimoteReports.NumButtons | VRDeviceDaemon/Wiimote.cpp:849-868 | the buttons reported for an extension type are exactly the Button enumerators below its count: the eleven core buttons always, Z and C only with a nunchuk or classic controller |
| WiimoteReports.BatteryPercent | VRDeviceDaemon/Wiimote.h:155-158 | the raw level halved, rounding up; the documented range 0-200 gives at most 100 |
| WiimoteReports.BatteryPercentMonotone | VRDeviceDaemon/Wiimote.h:105 | the percentage grows with the raw level and maps 0 to 0 and 200 to 100 |
| WiimoteReports.CoreButtons | VRDeviceDaemon/Wiimote.cpp:192-196 | the compacted field is below 2^11: bits 0-4 are byte 1 bits 0-4, bit 5 is byte 1 bit 7, bits 6-10 are byte 0 bits 0-4 |
| WiimoteReports.CoreButtonsFollowEnumeration | VRDeviceDaemon/Wiimote.h:169-172 | getButtonState of each core button reads the wire bit of that button; Z and C read as released |
| WiimoteReports.CoreButtonsRoundTrip | VRDeviceDaemon/Wiimote.cpp:195 | decoding the button bytes a device sends for any 11-bit field gives back that field |
| WiimoteReports.ButtonBytesOfCoreButtons | VRDeviceDaemon/Wiimote.cpp:195 | re-encoding a decoded field gives back the two bytes with exactly the non-button bits cleared |
| WiimoteReports.CoreAccelerometers | VRDeviceDaemon/Wiimote.cpp:198-203 | each raw axis is below 512, its high bits are the accelerometer byte and its low bit the named bit of the button bytes |
| WiimoteReports.ExtensionAccelerometers | VRDeviceDaemon/Wiimote.cpp:237-243 | each nunchuk axis is below 1024, its high bits are decoded byte 2-4 and its low two bits the named pair of decoded byte 5 |
| WiimoteReports.DeobfuscateBijective | VRDeviceDaemon/Wiimote.cpp:213-214 | the byte transform `(b ^ 0x17) + 0x17` is a bijection, with inverse `(c - 0x17) ^ 0x17` on both sides |
| WiimoteReports.Deobfuscate | VRDeviceDaemon/Wiimote.cpp:214 | the transform `(b ^ 0x17) + 0x17` is undone by subtracting 0x17 and then xoring with 0x17 |
| WiimoteReports.Obfuscate | VRDeviceDaemon/Wiimote.cpp:214 | the byte a device sends for a decoded value c: the transform maps it back to c |
| WiimoteReports.DeobfuscateRange | VRDeviceDaemon/Wiimote.cpp:372-373 | the transform is applied to exactly the positions of the range, every other byte is kept |
| WiimoteReports.ObfuscateRange | VRDeviceDaemon/Wiimote.cpp:372-373 | the inverse transform is applied to exactly the positions of the range |
| WiimoteReports.DeobfuscateRangeRoundTrip | VRDeviceDaemon/Wiimote.cpp:372-373 | decoding a range of encoded bytes gives back the original sequence |
| WiimoteReports.DecodeExtensionBlock | VRDeviceDaemon/Wiimote.cpp:212-214 | updateExtension decodes each of the six block bytes with `(b ^ 0x17) + 0x17` |
| WiimoteReports.DecodeCalibrationReply | VRDeviceDaemon/Wiimote.cpp:371-373 | the calibration reply is decoded from byte 7 up to the packet size; bytes before 7 and after the size are kept |
| WiimoteReports.ExtensionFromCode | VRDeviceDaemon/Wiimote.cpp:340-357 | codes 0x0000, 0xffff, 0xfefe, 0xfdfd select none, partially connected, nunchuk, classic controller; any other code keeps the current type |
| WiimoteReports.ExtensionCodeRoundTrip | VRDeviceDaemon/Wiimote.cpp:340-357 | the code each extension type reports selects that type, whatever the current one |
| WiimoteReports.NunchukButtons | VRDeviceDaemon/Wiimote.cpp:216-219 | Z and C are ORed in active-low from bits 0 and 1 of decoded byte 5 at bits 11 and 12; no other bit changes |
| WiimoteReports.NunchukButtonsKeepCore | VRDeviceDaemon/Wiimote.cpp:219 | the nunchuk bits leave the core button bits 0-10 unchanged |
| WiimoteReports.CoreButtonsWithinMask | VRDeviceDaemon/Wiimote.cpp:195 | the compacted core field has no bit above bit 10 |
| WiimoteReports.ReportLayout | VRDeviceDaemon/Wiimote.cpp:473-527 | the dispatch decodes exactly reports 0x30-0x33 and 0x35-0x37; accelerometers in 0x31, 0x33, 0x35, 0x37; IR in 0x33, 0x36, 0x37, extended format iff the report has no extension block; the extension block in 0x32, 0x35, 0x36, 0x37 |
| WiimoteReports.UpdateTarget | VRDeviceDaemon/Wiimote.cpp:260-275 | a slot is valid iff neither coordinate is 0x3ff; a valid slot takes the pair, an invalid one keeps its previous position |
| WiimoteReports.Coordinate | VRDeviceDaemon/Wiimote.cpp:256-259 | a coordinate is below 1024 and its low byte is the low byte from the report |
| WiimoteReports.IRBasic | VRDeviceDaemon/Wiimote.cpp:251-277 | basic mode fills slots 0-3 from two 5-byte groups, two slots per group sharing the middle byte; valid coordinates are below 0x3ff |
| WiimoteReports.IRExtended | VRDeviceDaemon/Wiimote.cpp:279-296 | extended mode fills slot j from the 3-byte group j; valid coordinates are below 0x3ff |
| WiimoteReports.BasicGroupRoundTrip | VRDeviceDaemon/Wiimote.cpp:256-259 | the four coordinates a basic group encodes are decoded back exactly |
| WiimoteReports.IRBasicRoundTrip | VRDeviceDaemon/Wiimote.cpp:251-277 | basic-mode decoding of any four encoded 10-bit pairs stores each pair in its slot as UpdateTarget prescribes |
| WiimoteReports.ExtendedGroupRoundTrip | VRDeviceDaemon/Wiimote.cpp:284-285 | the position an extended group encodes, with any blob size, is decoded back exactly |
| WiimoteReports.Report37OverrunsDeclaredBuffer | VRDeviceDaemon/Wiimote.cpp:527-539 | report 0x37 reads its extension block at offset 17, so its fields end at byte 23, past the 21-byte buffer |
| WiimoteReports.LayoutsFitReportBuffer | VRDeviceDaemon/Wiimote.cpp:473-539 | every report layout places accelerometers at 4, then IR, then the extension without overlap, fits 23 bytes, and all but 0x37 fit 21 |
| WiimoteReports.UpdateExtension | VRDeviceDaemon/Wiimote.cpp:210-246 | only a nunchuk's block is read: its buttons from decoded byte 5, its accelerometers only when requested; other state is unchanged |
| WiimoteReports.DecodeTargets | VRDeviceDaemon/Wiimote.cpp:494-526 | a report without IR keeps the targets; otherwise the basic or extended decoder reads the IR bytes at the layout's offset |
| WiimoteReports.DecodeCore | VRDeviceDaemon/Wiimote.cpp:473-539 | every data report sets the core buttons from bytes 2-3, the core axes from bytes 4-6 when the layout has them, and the targets by DecodeTargets |
| WiimoteReports.DecodeFields | VRDeviceDaemon/Wiimote.cpp:473-539 | decoding a data report keeps the extension type and battery level and sets the targets as DecodeTargets does |
| WiimoteReports.DecodeFieldsCore | VRDeviceDaemon/Wiimote.cpp:473-539 | the core button bits always come from bytes 2-3; without a nunchuk block the report decodes to its core fields only |
| WiimoteReports.DecodeFieldsNunchuk | VRDeviceDaemon/Wiimote.cpp:505-539 | with a nunchuk block, Z and C come from the block's decoded byte 5 and the nunchuk axes from it when requested, else they are kept |
| WiimoteReports.DecodedButtonsWithinCount | VRDeviceDaemon/Wiimote.cpp:192-220 | after a data report only buttons below getNumButtons can read as pressed: without a nunchuk, Z and C are clear |
| WiimoteReports.StatusWithoutExtension | VRDeviceDaemon/Wiimote.cpp:393-404 | a status report without an extension stores the battery byte, sets the type to none and masks the button field with 0xffff |
| WiimoteReports.StatusResetKeepsNunchukButtons | VRDeviceDaemon/Wiimote.cpp:396 | the 0xffff mask keeps bits 11 and 12, so Z and C read as before the reset |
| WiimoteReports.TypeCode | VRDeviceDaemon/Wiimote.cpp:340 | the type code is bytes 7 and 8 of the reply, big-endian |
| WiimoteReports.StatusWithExtension | VRDeviceDaemon/Wiimote.cpp:315-357 | a status report with an extension stores the battery byte and takes the type from the type code; buttons, axes and targets are unchanged |
| WiimoteReceiver.NegotiationCommands | VRDeviceDaemon/Wiimote.cpp:322-366 | enable and type query are always written; the calibration query is written iff the type is nunchuk and calibration is still needed |
| WiimoteReceiver.EnableExtensionDecodes | VRDeviceDaemon/Wiimote.cpp:324-325 | the enable packet is a one-byte write of 0x00 to extension register 0xa40040 |
| WiimoteReceiver.QueryExtensionTypeDecodes | VRDeviceDaemon/Wiimote.cpp:332-333 | the type query reads two bytes from extension register 0xa400fe |
| WiimoteReceiver.QueryCalibrationDecodes | VRDeviceDaemon/Wiimote.cpp:364-365 | the calibration query reads sixteen bytes from extension register 0xa40020 |
| WiimoteReceiver.HandleStatus | VRDeviceDaemon/Wiimote.cpp:315-409 | the 0x20 report stores the battery byte, negotiates or resets by bit 1 of byte 4, then sets the reporting mode from inside the reader |
| WiimoteReceiver.ProcessPacket | VRDeviceDaemon/Wiimote.cpp:307-549 | only a non-empty read starting with 0xa1 is handled; each report identifier changes only its own part of the state; a 0x20 status report is handled as HandleStatus states; a read reply goes to the handler as written, over the 21-byte buffer and the two bytes past it, and a write acknowledgement advances the write and writes the chunk it sends; the wake-up a reply broadcasts is visible in the state as an error or nothing left to read |
| WiimoteReceiver.IgnoredPacketsChangeNothing | VRDeviceDaemon/Wiimote.cpp:308-310 | any number of empty reads or reads that do not start with 0xa1 leave the device state unchanged and write nothing |
| WiimoteReceiver.RunPackets | VRDeviceDaemon/Wiimote.cpp:304-549 | the receiver loop over a sequence of reads, each with its own type reply, keeps the state well formed and returns the commands it wrote |
| WiimoteReceiver.ReadRepliesFollowDownload | VRDeviceDaemon/Wiimote.cpp:411-445 | a run of read replies through the receiver loop leaves the read exactly as the handler as written leaves it over the same replies, writes nothing, and leaves the write and settings alone |
| WiimoteReceiver.Writes | VRDeviceDaemon/Wiimote.cpp:466-467 | one write command per packet, in order |
| WiimoteReceiver.RunUploadFirst | VRDeviceDaemon/Wiimote.cpp:447-471 | feeding acknowledgements to a write, active or not, is its first acknowledgement followed by the rest |
| WiimoteReceiver.AcksFollowUpload | VRDeviceDaemon/Wiimote.cpp:447-471 | a run of write acknowledgements through the receiver loop leaves the write as the transfer model does and writes exactly the chunks it sends, leaving the read and settings alone |
| WiimoteReceiver.AckStep | VRDeviceDaemon/Wiimote.cpp:447-471 | one write acknowledgement is handed to the write, the loop writes exactly the chunk the write sends, and the read and the settings are left alone |
| WiimotePackets.WithRumble | VRDeviceDaemon/Wiimote.cpp:84-97 | writePacket forces bit 0 of byte 2 to the rumble flag and changes no other bit or byte |
| WiimotePackets.WithRumbleLatestWins | VRDeviceDaemon/Wiimote.cpp:87-90 | setting the rumble bit twice is the same as setting it once with the later flag |
| WiimotePackets.LedPacket | VRDeviceDaemon/Wiimote.cpp:889-895 | the LED request is 0x52 0x11 and the low four mask bits in the high nibble of byte 2 |
| WiimotePackets.LedPacketWithRumble | VRDeviceDaemon/Wiimote.cpp:889-895 | after writePacket the high nibble of byte 2 still holds the LED mask and bit 0 holds the rumble flag |
| WiimotePackets.ReportingMode | VRDeviceDaemon/Wiimote.cpp:138-160 | with an extension the report is one of 0x37, 0x35, 0x36, 0x32, without one of 0x33, 0x31, 0x36, 0x30 |
| WiimotePackets.ReportingModeLayout | VRDeviceDaemon/Wiimote.cpp:138-160 | the requested report carries accelerometers iff requested, IR iff requested, and the extension block whenever an extension is present |
| WiimotePackets.IRModeByte | VRDeviceDaemon/Wiimote.cpp:168-170 | the IR mode is 0x03 iff there is no extension and both accelerometers and IR are requested, 0x01 otherwise |
| WiimotePackets.IRModeMatchesLayout | VRDeviceDaemon/Wiimote.cpp:162-182 | the camera is put into extended mode exactly when the requested report decodes IR in extended format |
| WiimotePackets.ReportRequest | VRDeviceDaemon/Wiimote.cpp:133-160 | the request is 0x52 0x12, byte 2 has only bit 2 and that iff continuous, byte 3 is the report identifier |
| WiimotePackets.IRModePacket | VRDeviceDaemon/Wiimote.cpp:168-171 | the in-reader IR mode packet writes the mode byte to register 0xb00033, padded with zeros to 23 bytes |
| WiimotePackets.SetReportingMode | VRDeviceDaemon/Wiimote.cpp:131-188 | the IR mode goes out first iff IR is requested, as one packet inside the reader or as a one-byte register write otherwise; the report request is last |
| WiimotePackets.IRModePacketIsOneChunk | VRDeviceDaemon/Wiimote.cpp:168-183 | the in-reader IR mode packet is exactly the write chunk of the one-byte register write used outside the reader |
| WiimotePackets.SetRumble | VRDeviceDaemon/Wiimote.cpp:897-904 | setRumble stores the flag and then sets the reporting mode from outside the reader |
| WiimotePackets.RequestContinuousReports | VRDeviceDaemon/Wiimote.cpp:906-913 | the flag is stored, then the reporting mode is set |
| WiimotePackets.RequestAccelerometers | VRDeviceDaemon/Wiimote.cpp:915-922 | the flag is stored, then the reporting mode is set |
| WiimotePackets.IRCameraOn | VRDeviceDaemon/Wiimote.cpp:929-941 | the camera start-up is two 3-byte control packets with the enable bit 0x04 set, then four register writes that each fit one 16-byte chunk; the first and the last write go to the same mode register with different values |
| WiimotePackets.RegisterWriteReadsBack | VRDeviceDaemon/Wiimote.cpp:608-627 | a register write of at most 16 bytes to a 24-bit address is sent as one packet, from which the device reads back that address and those bytes |
| WiimotePackets.IRCameraOnRegisters | VRDeviceDaemon/Wiimote.cpp:935-941 | each register write of the camera start-up reaches the camera as its register address and bytes, unchanged |
| WiimotePackets.IRCameraOff | VRDeviceDaemon/Wiimote.cpp:945-949 | stopping the camera writes the same two control packets as starting it, with the enable bit cleared |
| WiimotePackets.RequestIRTracking | VRDeviceDaemon/Wiimote.cpp:924-957 | the camera is started or stopped only when the flag changes; the reporting mode is set in every case |
| WiimotePackets.Address24 | VRDeviceDaemon/Wiimote.cpp:575-579 | the address is written as three bytes |
| WiimotePackets.BE24 | VRDeviceDaemon/Wiimote.cpp:575-579 | three big-endian bytes read as a number below 2^24 |
| WiimotePackets.Address24RoundTrip | VRDeviceDaemon/Wiimote.cpp:575-579 | the three address bytes are the big-endian digits of the address modulo 2^24, negative addresses included |
| WiimotePackets.DownloadRequest | VRDeviceDaemon/Wiimote.cpp:572-585 | the read request is 0x52 0x17 with bit 2 of byte 2 set iff reading from the register space |
| WiimotePackets.ParseDownloadRequest | VRDeviceDaemon/Wiimote.cpp:572-585 | a read request names an address below 2^24 and a length below 2^16 |
| WiimotePackets.DownloadRequestRoundTrip | VRDeviceDaemon/Wiimote.cpp:572-585 | a request carries its space, its address modulo 2^24 in bytes 3-5 and its length modulo 2^16 in bytes 6-7, big-endian |
| WiimotePackets.UploadPacket | VRDeviceDaemon/Wiimote.cpp:99-124 | a write chunk is 23 bytes: 0x52 0x16, bit 2 of byte 2 iff register space, the address in bytes 3-5, the length in byte 6, the data from byte 7, zeros after |
| WiimotePackets.ParseUploadPacket | VRDeviceDaemon/Wiimote.cpp:99-124 | a write chunk carries at most 16 bytes at an address below 2^24 |
| WiimotePackets.UploadPacketRoundTrip | VRDeviceDaemon/Wiimote.cpp:99-124 | a chunk is read back as its space, its address modulo 2^24 and exactly its data |
| WiimotePackets.IsAddress | VRDeviceDaemon/Wiimote.cpp:642-658 | a device name is taken as an address iff it is not null and has ':' at every third position and hex digits elsewhere, with no length check |
| WiimotePackets.AddressShapeExamples | VRDeviceDaemon/Wiimote.cpp:642-658 | a full address, a truncated one and the empty name have the address shape; a misplaced ':' does not |
| WiimoteTransfer.ReplyError | VRDeviceDaemon/Wiimote.cpp:422 | the reply error is the low nibble of byte 4 |
| WiimoteTransfer.ReplyCount | VRDeviceDaemon/Wiimote.cpp:431 | a reply carries between 1 and 16 bytes: the high nibble of byte 4 plus one |
| WiimoteTransfer.StartDownload | VRDeviceDaemon/Wiimote.cpp:564-569 | a read starts active, without error or data, with the length cut to 16 bits |
| WiimoteTransfer.CopyCount | VRDeviceDaemon/Wiimote.cpp:432-433 | the copy loop stores at most the reply's count, and the smaller of the count and the outstanding bytes when these fit an `int` |
| WiimoteTransfer.DownloadReplyAsWritten | VRDeviceDaemon/Wiimote.cpp:411-445 | an error ends the read and is recorded; a clean reply clears the recorded error, the outstanding count drops by the full reply count modulo 2^64, and completion is signalled iff it becomes 0 |
| WiimoteReceiver.ReplyOverrunsDeclaredBuffer | VRDeviceDaemon/Wiimote.cpp:308 | a reply carrying 15 or 16 bytes is read past the end of the 21-byte receive buffer |
| WiimoteReceiver.ReplyFitsReportBuffer | VRDeviceDaemon/Wiimote.cpp:431-433 | every reply's data lies inside a 23-byte buffer, and inside 21 bytes iff it carries at most 14 bytes |
| WiimoteTransfer.RunDownloadAsWritten | VRDeviceDaemon/Wiimote.cpp:411-445 | over any replies the handler as written never clears the active flag, only extends the data received, and keeps the count below 2^64 |
| WiimoteTransfer.ReplyAsWrittenAgrees | VRDeviceDaemon/Wiimote.cpp:429-443 | while a reply carries no more than the outstanding bytes, the handler as written and the corrected one store the same bytes, leave the same count and signal alike |
| WiimoteTransfer.OvershootNeverCompletes | VRDeviceDaemon/Wiimote.cpp:436-437 | a reply carrying more bytes than outstanding leaves at least 2^64 - 16 outstanding and signals nothing |
| WiimoteTransfer.CleanReplyClearsError | VRDeviceDaemon/Wiimote.cpp:422-428 | a failed reply followed by a clean one leaves no error, so the read then returns its data |
| WiimoteTransfer.ZeroLengthReadNeverCompletes | VRDeviceDaemon/Wiimote.cpp:566 | no error-free reply completes a read whose length is 0 modulo 2^16 |
| WiimoteTransfer.DownloadReply | VRDeviceDaemon/Wiimote.cpp:411-445 | corrected: the outstanding count saturates at 0, at most the outstanding bytes are stored, and completion is signalled iff it reaches 0 |
| WiimoteTransfer.StartDownloadFixed | VRDeviceDaemon/Wiimote.cpp:564-569 | corrected: a read whose length is 0 modulo 2^16 is complete at once |
| WiimoteTransfer.Payload | VRDeviceDaemon/Wiimote.cpp:431-433 | the data bytes of a reply: as many as its count, from byte 7 |
| WiimoteTransfer.RunDownload | VRDeviceDaemon/Wiimote.cpp:411-445 | replies to an inactive read change nothing and signal nothing |
| WiimoteTransfer.DownloadRunDelivers | VRDeviceDaemon/Wiimote.cpp:411-445 | error-free replies complete a read of m bytes exactly when they have delivered m bytes, and it then holds the first m of them |
| WiimoteTransfer.DownloadResult | VRDeviceDaemon/Wiimote.cpp:590-599 | downloadData returns the received data iff there was no error, and nothing otherwise |
| WiimoteTransfer.SendChunk | VRDeviceDaemon/Wiimote.cpp:99-129 | writeUploadPacket sends the first min(pending, 16) bytes at the current address, then advances address and data by that many |
| WiimoteTransfer.StartUpload | VRDeviceDaemon/Wiimote.cpp:612-621 | uploadData cuts the length to 16 bits and sends the first chunk at once, even an empty one |
| WiimoteTransfer.AckError | VRDeviceDaemon/Wiimote.cpp:458 | the acknowledgement error is the low nibble of byte 5 |
| WiimoteTransfer.UploadAck | VRDeviceDaemon/Wiimote.cpp:447-471 | an error or an empty queue ends the write with that error; otherwise the next chunk goes out |
| WiimoteTransfer.RunUpload | VRDeviceDaemon/Wiimote.cpp:447-471 | acknowledgements for an inactive write change nothing and send nothing |
| WiimoteTransfer.CarriedAppend | VRDeviceDaemon/Wiimote.cpp:99-129 | the data carried by two runs of chunks is the data of the first followed by that of the second |
| WiimoteTransfer.UploadStep | VRDeviceDaemon/Wiimote.cpp:459-467 | an error-free acknowledgement with bytes pending sends a chunk carrying the next min(pending, 16) bytes and keeps the write active |
| WiimoteTransfer.ChunksStep | VRDeviceDaemon/Wiimote.cpp:114-117 | sending a chunk of min(n, 16) bytes leaves one chunk fewer to send |
| WiimoteTransfer.RunUploadCons | VRDeviceDaemon/Wiimote.cpp:447-471 | a run of acknowledgements is the first one's chunk followed by the rest of the run |
| WiimoteTransfer.AcksErrorFreeTail | VRDeviceDaemon/Wiimote.cpp:458 | the tail of an error-free run of acknowledgements is error free |
| WiimoteTransfer.UploadRunCons | VRDeviceDaemon/Wiimote.cpp:447-471 | an error-free acknowledgement of a write with pending bytes sends one chunk carrying the first (up to) 16 bytes, and the rest of the run continues from the remaining bytes |
| WiimoteTransfer.UploadRunSendsAll | VRDeviceDaemon/Wiimote.cpp:447-471 | error-free acknowledgements send ceil(n / 16) chunks that carry exactly the pending bytes, and the last acknowledgement ends the write successfully |
| WiimoteTransfer.UploadData | VRDeviceDaemon/Wiimote.cpp:602-629 | uploadData always sends at least one packet |
| WiimoteTransfer.UploadSendsData | VRDeviceDaemon/Wiimote.cpp:602-629 | an error-free write of n = size mod 2^16 bytes sends max(1, ceil(n / 16)) packets carrying exactly the first n bytes, then succeeds |
| WiimoteTransfer.ChunksAfterFirst | VRDeviceDaemon/Wiimote.cpp:612-621 | the first chunk plus the chunks for the rest make max(1, ceil(n / 16)) |
| WiimoteTransfer.FirstChunkCarries | VRDeviceDaemon/Wiimote.cpp:612-621 | the first chunk uploadData sends carries the first min(n, 16) bytes |
| TripleBuffer.Create | Threads/TripleBuffer.h:46-49 | a new buffer has the locked and the most recent slot both 0, so no new value, and no slot handed out for writing |
| TripleBuffer.FreeSlot | Threads/TripleBuffer.h:66-68 | the slot chosen for writing is a valid index different from both the locked and the most recent slot |
| TripleBuffer.StartNewValue | Threads/TripleBuffer.h:63-72 | startNewValue hands out a slot that is neither locked nor most recent and changes nothing else |
| TripleBuffer.WriteSlot | Threads/TripleBuffer.h:70-71 | writing through the handed-out reference changes that slot only |
| TripleBuffer.PostNewValue | Threads/TripleBuffer.h:73-77 | postNewValue() makes the written slot the most recent one, which is new unless it is the locked slot |
| TripleBuffer.PostValue | Threads/TripleBuffer.h:78-90 | postNewValue(v) stores v in a slot that was neither locked nor most recent and publishes it, keeping the locked and previous values; afterwards there is a new value |
| TripleBuffer.LockNewValue | Threads/TripleBuffer.h:95-104 | lockNewValue returns whether there was a new value, locks the most recent slot and leaves no new value; the locked value is the most recent one |
| TripleBuffer.HasNewValue | Threads/TripleBuffer.h:91-94 | hasNewValue is the new-value flag of the slot-free buffer the slots stand for |
| TripleBuffer.GetLockedValue | Threads/TripleBuffer.h:101-104 | getLockedValue is the consumer's value of the slot-free buffer the slots stand for |
| TripleBuffer.LockTwice | Threads/TripleBuffer.h:95-100 | a second lock without a post in between returns false and keeps the locked value |
| TripleBuffer.PostThenLock | Threads/TripleBuffer.h:78-104 | postNewValue(v) followed by lockNewValue returns true and makes v the locked value |
| TripleBuffer.Apply | Threads/TripleBuffer.h:63-100 | every operation keeps all three indices in {0, 1, 2} |
| TripleBuffer.Run | Threads/TripleBuffer.h:63-100 | any interleaving that follows the producer protocol keeps the indices in {0, 1, 2} |
| TripleBuffer.StepRepresents | Threads/TripleBuffer.h:63-104 | each step of either side keeps the slots in correspondence with a slot-free buffer of locked, latest and pending values |
| TripleBuffer.RunRefinesAbstract | Threads/TripleBuffer.h:63-104 | in any interleaving under the producer protocol the consumer sees exactly what the slot-free buffer prescribes: the locked value, the latest value and an exact new-value flag |
| TripleBuffer.CreateRepresents | Threads/TripleBuffer.h:46-49 | a new buffer corresponds to a slot-free buffer with the initial slot-0 value locked and latest and nothing new |
| TwoHandedNavigation.Create | Vrui/Tools/TwoHandedNavigationTool.cpp:101-105 | a new tool is idle and does not hold the navigation |
| TwoHandedNavigation.ButtonEvent | Vrui/Tools/TwoHandedNavigationTool.cpp:112-194 | idle + press moves with that device iff activate() succeeds; moving + press of the other device scales, of the moving device changes nothing; scaling + release moves with the device still held; moving + release of the moving device deactivates and idles; every other event is ignored |
| TwoHandedNavigation.Frame | Vrui/Tools/TwoHandedNavigationTool.cpp:196-230 | frame() does nothing iff idle; moving sets the navigation from the moving device; scaling also applies the scale |
| TwoHandedNavigation.StepConsistent | Vrui/Tools/TwoHandedNavigationTool.cpp:112-194 | every press of a released button or release of a held one keeps the tool consistent with the buttons: not idle iff holding the navigation, the moving device one of the two with its button held, both held while scaling |
| TwoHandedNavigation.ScalingReleaseKeepsHeldDevice | Vrui/Tools/TwoHandedNavigationTool.cpp:164-175 | releasing either button while scaling moves with the other device, whose button is held |
| TwoHandedNavigation.RunConsistent | Vrui/Tools/TwoHandedNavigationTool.cpp:39-41 | for the two-device layout, any sequence of deliverable button events keeps the moving-device index in {0, 1} and its button held whenever the tool is not idle |
| Glyph.Default | Vrui/GlyphRenderer.cpp:122-127 | a default glyph is disabled, a crossball, with the default material |
| Glyph.Enable | Vrui/GlyphRenderer.cpp:129-132 | enable() sets the flag and changes neither type nor material |
| Glyph.EnableWith | Vrui/GlyphRenderer.cpp:134-139 | enable(type, material) sets all three fields, whatever they were |
| Glyph.Disable | Vrui/GlyphRenderer.cpp:141-144 | disable() clears the flag and changes neither type nor material |
| Glyph.SetGlyphType | Vrui/GlyphRenderer.cpp:146-149 | setGlyphType changes only the type |
| Glyph.SetGlyphMaterial | Vrui/GlyphRenderer.cpp:151-154 | setGlyphMaterial changes only the material |
| Glyph.ParseTypeName | Vrui/GlyphRenderer.cpp:162-173 | a name that parses is exactly (case-sensitively) the configuration name of the type it gives |
| Glyph.ParseTypeNameInverse | Vrui/GlyphRenderer.cpp:162-173 | every type's name parses back to that type, and no type is named "None" |
| Glyph.Configure | Vrui/GlyphRenderer.cpp:156-181 | "None" (also for a missing tag) disables and keeps type and material; a type name enables, sets that type and reads the material tag (default: the current material); any other name fails before anything changes |
| Glyph.CursorTextureSize | Vrui/GlyphRenderer.cpp:231-239 | for image sizes up to 2^31, in each dimension the smallest power of two at least the cursor image size |
| PowerOfTwo.PowerOfTwoAbove | Vrui/GlyphRenderer.cpp:235-236 | a power of two above another one is at least twice it |
| PowerOfTwo.TextureSize | Vrui/VRWindow.cpp:814-815 | the doubling loop ends at the smallest power of two that is at least the size, so 1 for sizes up to 1 |
| PowerOfTwo.PowerOfTwoBelow | Vrui/GlyphRenderer.cpp:235-236 | a power of two below 2^k is at most 2^(k-1), so doubling it stays within 2^k |
| PowerOfTwo.UnsignedTextureSize | Vrui/GlyphRenderer.cpp:234-236 | the `unsigned int` doubling loop, with its shift taken modulo 2^32, ends for sizes up to 2^31 at the smallest power of two that is at least the size |
| ControlKey.Make | Vrui/Internal/InputDeviceAdapterMouse.h:61-64 | the constructor stores key code and modifier mask verbatim |
| ControlKey.NotEqual | Vrui/Internal/InputDeviceAdapterMouse.h:67-70 | `operator!=` holds iff the key codes or the modifier masks differ, that is iff the keys differ |
| ControlKey.ShiftedMask | Vrui/Internal/InputDeviceAdapterMouse.h:73 | `modifierMask << 24` on an int: the 32-bit value congruent to mask * 2^24, negative for masks of 128 and above |
| ControlKey.Hash | Vrui/Internal/InputDeviceAdapterMouse.h:71-74 | the bucket is below the table size; for a non-negative key code and a mask below 128 it is (keyCode + mask * 2^24) mod tableSize |
| ControlKey.HashMatchesUnwrappedSum | Vrui/Internal/InputDeviceAdapterMouse.h:71-74 | for a table size dividing 2^32 neither the sign-bit shift nor the `size_t` conversion shows: the bucket is (keyCode + mask * 2^24) mod tableSize for every hashable key |
| ControlKey.SignBitMaskWraps | Vrui/Internal/InputDeviceAdapterMouse.h:73 | a mask of 0x80 shifts into the sign bit: with 7 buckets the key lands in bucket 0, not the unwrapped bucket 2 |
| ControlKey.NegativeKeyCodeWraps | Vrui/Internal/InputDeviceAdapterMouse.h:73 | a negative sum is converted to `size_t` before the remainder: key code -1 hashes like 2^64 - 1 |
| KdTree.Empty | Geometry/ArrayKdTree.h:74-77 | the default constructor makes a tree with 0 nodes, and getNumNodes returns 0 |
| KdTree.WithNodes | Geometry/ArrayKdTree.h:78-81 | the sized constructor keeps the count, and getNumNodes returns it |
| KdTree.GetNumNodes | Geometry/ArrayKdTree.h:90-93 | in a well-formed tree getNumNodes is the length of the node array |
| KdTree.Mid | Geometry/ArrayKdTree.h:56 | `(left + right) >> 1` is the floor of the half, also for negative sums, and lies in [left, right] for a non-empty range |
| KdTree.AllInJoin | Geometry/ArrayKdTree.h:56-65 | the middle index followed by indices below it and indices above it stays within the whole range |
| KdTree.OnceEachJoin | Geometry/ArrayKdTree.h:56-65 | if each half visits its indices once each, the whole range is visited once each |
| KdTree.Visits | Geometry/ArrayKdTree.h:53-66 | the visit order starts with the middle index; on a non-empty range it has one entry per index, all within the range, every index exactly once |
| KdTree.BlockOrder | Geometry/ArrayKdTree.h:56-65 | in the middle index followed by the lower block and then the upper block, every smaller index comes before every larger one |
| KdTree.PrefixOrder | Geometry/ArrayKdTree.h:56-65 | the traversal is in prefix order: the middle index first, then every index below it before every index above it |
| KdTree.VisitsExactlyOnce | Geometry/ArrayKdTree.h:53-66 | for left <= right the traversal calls the function right - left + 1 times, once for each index of the range and for no other |
| KdTree.TraverseIndicesAsWritten | Geometry/ArrayKdTree.h:114-118 | the public traversal visits at least one index; on a non-empty tree exactly the node indices, once each |
| KdTree.EmptyTreeVisitsMinusOne | Geometry/ArrayKdTree.h:114-118 | on the default-constructed empty tree the traversal visits index -1, outside the node array |
| KdTree.Gather | Geometry/ArrayKdTree.h:57 | the nodes the traversal function receives, one per visited index, in visiting order |
| KdTree.GatherCovers | Geometry/ArrayKdTree.h:57 | an order that lists every index hands every node to the traversal function |
| KdTree.GatherPermutes | Geometry/ArrayKdTree.h:57 | gathering along an order that lists every index once gives the same multiset of nodes |
| KdTree.TraverseTree | Geometry/ArrayKdTree.h:114-118 | corrected: the traversal function receives the tree's nodes rearranged (the same multiset), in the order of Visits, the root first; an empty tree gives nothing |
| Playback.ReadDevice | Vrui/InputDeviceAdapterPlayback.cpp:222-243 | one device's record reads iff the file holds its 7 pose scalars (tracked devices only), its button ints and its valuator doubles; the result has one state per button and valuator, an untracked device keeps its pose, and reading resumes right after the record |
| Playback.ReadWriteDevice | Vrui/InputDeviceAdapterPlayback.cpp:222-243 | a device record as the recorder writes it reads back as the same device state and leaves the rest of the file |
| Playback.WriteDevice | Vrui/InputDeviceAdapterPlayback.cpp:222-243 | a device record that fits its layout takes exactly the values the reader consumes for that layout |
| Playback.ReadDevices | Vrui/InputDeviceAdapterPlayback.cpp:219-244 | the devices read in index order; this succeeds iff the file holds the whole frame, giving one state per device and resuming after the frame |
| Playback.ReadWriteDevices | Vrui/InputDeviceAdapterPlayback.cpp:219-244 | a whole written frame reads back as the same device states |
| Playback.WriteDevices | Vrui/InputDeviceAdapterPlayback.cpp:219-244 | a frame whose records fit their layouts takes exactly the values of a frame |
| Playback.Repeat | Vrui/InputDeviceAdapterPlayback.cpp:232-243 | n reads of one value kind |
| Playback.BytesAppend | Vrui/InputDeviceAdapterPlayback.cpp:219-249 | the bytes of two successive reads add up |
| Playback.BytesRepeat | Vrui/InputDeviceAdapterPlayback.cpp:232-243 | n reads of one kind take n times its size |
| Playback.FrameLayout | Vrui/InputDeviceAdapterPlayback.cpp:219-249 | a frame record takes 7 Scalars per tracked device, 4 bytes per button and 8 per valuator, then the 8-byte time stamp of the next frame, which is read last |
| Playback.RecordLayout | Vrui/InputDeviceAdapterPlayback.cpp:219-245 | one device reads one value per kind: 7 Scalars if tracked, then 4 bytes per button and 8 per valuator |
| Playback.ReadHeader | Vrui/InputDeviceAdapterPlayback.h:52-61 | a header reads iff it is a name, three ints and three reals; the device is tracked iff its track type is not TRACK_NONE, the counts are the header's (a negative one as none), and reading resumes after the seven values |
| Playback.ReadWriteHeader | Vrui/InputDeviceAdapterPlayback.cpp:75-80 | a written device header reads back as its layout, and reading resumes right after it |
| Playback.ReadHeaders | Vrui/InputDeviceAdapterPlayback.cpp:69-93 | n device headers read iff the file holds 7n values and each group of 7 is a well-formed header; the i-th layout is that of header i, and reading resumes after the 7n values |
| Playback.HeaderAt | Vrui/InputDeviceAdapterPlayback.cpp:69-77 | header i of a run starts 7i values in |
| Playback.HeaderAtTail | Vrui/InputDeviceAdapterPlayback.cpp:69-77 | header i + 1 of a run is header i of the run after its first header |
| Playback.HeadersCons | Vrui/InputDeviceAdapterPlayback.cpp:69-77 | a run of n headers is well formed iff its first header is and the n - 1 after it are |
| Playback.LayoutsCons | Vrui/InputDeviceAdapterPlayback.cpp:69-77 | the layouts of a run are the first header's layout followed by those of the rest |
| Playback.HeadersValues | Vrui/InputDeviceAdapterPlayback.cpp:73-77 | the headers a recording holds take 7 values per device |
| Playback.ReadWriteHeaders | Vrui/InputDeviceAdapterPlayback.cpp:69-93 | written headers read back as their layouts, and reading resumes after them |
| Playback.Open | Vrui/InputDeviceAdapterPlayback.cpp:61-113 | the file starts with the device count and its headers, one layout per header; no device has a pose yet and there is no current time stamp; the adapter starts on its first frame and is done from the start iff the file ends right after the headers; otherwise the next time stamp is the value after the headers and reading resumes after it |
| Playback.OpenReadsBack | Vrui/InputDeviceAdapterPlayback.cpp:61-103 | a recording's start reads back: the device count, the layouts of the headers and the first time stamp, with reading resuming after it |
| Playback.OpenWith | Vrui/InputDeviceAdapterPlayback.cpp:61-103 | once the device count and the headers are read, the first time stamp becomes the next one, no device has a state yet and the first frame is still to come |
| Playback.Update | Vrui/InputDeviceAdapterPlayback.cpp:182-264 | nothing changes once done. Otherwise the update succeeds iff the whole frame is there and, unless the file ends there, a time stamp follows. The next time stamp becomes current and firstFrame is cleared. The adapter is done iff the file ended with the frame, and otherwise resumes after the following time stamp |
| Playback.UpdateTimes | Vrui/InputDeviceAdapterPlayback.cpp:182-327 | any number of updates keep the adapter well formed |
| Playback.DoneIsFinal | Vrui/InputDeviceAdapterPlayback.cpp:185-186 | once done, any number of updates change nothing |
| Playback.FirstFrameCleared | Vrui/InputDeviceAdapterPlayback.cpp:326 | after one or more updates firstFrame is false |
| Playback.UpdateReplaysFrame | Vrui/InputDeviceAdapterPlayback.cpp:210-257 | a frame the recorder wrote plays back as the recorded device states and time stamp, and playback moves on to the next frame |
| MovieTemplate.DigitRun | Vrui/InputDeviceAdapterPlayback.cpp:149-151 | the width digits skipped: all digits, and followed by a non-digit or by the end |
| MovieTemplate.ScanAsWritten | Vrui/InputDeviceAdapterPlayback.cpp:140-160 | the loop as written never loses a counted conversion, and it can run off the string only on a template that holds a '%' |
| MovieTemplate.Scan | Vrui/InputDeviceAdapterPlayback.cpp:138-160 | corrected scan that stops at the end of the string; it never loses a conversion it has counted |
| MovieTemplate.ScanNeedsPercent | Vrui/InputDeviceAdapterPlayback.cpp:142-155 | a conversion is counted only after a '%', and an integer conversion only after a 'd' |
| MovieTemplate.AsWrittenAgrees | Vrui/InputDeviceAdapterPlayback.cpp:140-160 | wherever the loop as written stays on the string, it gives the same verdict as the corrected scan |
| MovieTemplate.TrailingConversionOverruns | Vrui/InputDeviceAdapterPlayback.cpp:142-155 | a template ending in '%' or in '%' and width digits makes the loop as written step past end() |
| MovieTemplate.AsWrittenSkipsLiteral | Vrui/InputDeviceAdapterPlayback.cpp:140-160 | characters other than '%' and '/' leave the scan as written where it was |
| MovieTemplate.Accepted | Vrui/InputDeviceAdapterPlayback.cpp:161-162 | an accepted template holds a '%' and a 'd' |
| MovieTemplate.ScanPlain | Vrui/InputDeviceAdapterPlayback.cpp:140-160 | text without conversions counts nothing, and any '/' in it clears the integer-conversion flag |
| MovieTemplate.NoConversionIsPlain | Vrui/InputDeviceAdapterPlayback.cpp:140-160 | a stretch that adds no conversion is plain text, and the flag survives it iff it was set and no '/' occurs |
| MovieTemplate.DigitRunOf | Vrui/InputDeviceAdapterPlayback.cpp:149-151 | the width digits before a non-digit are skipped exactly |
| MovieTemplate.AcceptsDecomposed | Vrui/InputDeviceAdapterPlayback.cpp:138-162 | plain text, '%', width digits, 'd', then plain text without '/' is accepted |
| MovieTemplate.EscapeExtends | Vrui/InputDeviceAdapterPlayback.cpp:142-145 | a leading "%%" keeps a template well formed |
| MovieTemplate.LiteralExtends | Vrui/InputDeviceAdapterPlayback.cpp:158-159 | a leading ordinary character keeps a template well formed |
| MovieTemplate.ConversionShape | Vrui/InputDeviceAdapterPlayback.cpp:145-155 | a leading conversion with width digits and 'd', followed by plain text without '/', is well formed |
| MovieTemplate.AcceptedDecomposes | Vrui/InputDeviceAdapterPlayback.cpp:138-162 | every accepted template is plain text, one "%<digits>d" conversion, and plain text without '/' |
| MovieTemplate.AcceptedIffWellFormed | Vrui/InputDeviceAdapterPlayback.cpp:138-162 | the constructor accepts a template iff it has exactly one integer conversion, width digits allowed, "%%" as a literal, and no '/' after the conversion |
| MovieTemplate.WidthExample | Vrui/InputDeviceAdapterPlayback.cpp:149-155 | "frame%04d.ppm" is accepted |
| MovieTemplate.NoPercentIsPlain | Vrui/InputDeviceAdapterPlayback.cpp:158-159 | text without '%' is plain |
| MovieTemplate.EscapeExample | Vrui/InputDeviceAdapterPlayback.cpp:142-145 | "100%%frame%d.ppm" is accepted |
| MovieTemplate.EscapeAccepted | Vrui/InputDeviceAdapterPlayback.cpp:142-145 | a "%%" pair in the text before the one integer conversion does not stop the template being accepted |
| MovieTemplate.TemplateExamples | Vrui/InputDeviceAdapterPlayback.cpp:138-162 | both examples above are accepted |
| MovieTemplate.SlashAfterConversionRefused | Vrui/InputDeviceAdapterPlayback.cpp:158-159 | "frame%d/x" is refused: a '/' after the conversion clears the flag |
| VRWindow.Encode | Vrui/VRWindow.cpp:101-129 | every window type has a name of at least four characters |
| VRWindow.Fold | Vrui/VRWindow.cpp:132 | the case folding strncasecmp applies: only 'A'..'Z' change, to lower case |
| VRWindow.DecodeWith | Vrui/VRWindow.cpp:130-182 | the cascade fails, with the text in the error, iff no row from the start on matches. Otherwise the first matching row decides the type and the number of characters consumed |
| VRWindow.DecodeAsWritten | Vrui/VRWindow.cpp:130-182 | the decoder as written succeeds iff the text starts with the compared part of some type name (18 of 19 characters for the split-viewport type), and then consumes exactly that part |
| VRWindow.Decode | Vrui/VRWindow.cpp:130-182 | corrected: decoding succeeds iff the text starts with some type's whole name, case ignored, and then consumes exactly that name |
| VRWindow.Compared | Vrui/VRWindow.cpp:162-167 | the cascade never compares more characters than a type's name has |
| VRWindow.CascadeRows | Vrui/VRWindow.cpp:130-179 | row j of either cascade holds the name of the same type and compares the part Compared gives |
| VRWindow.DecodeMeaning | Vrui/VRWindow.cpp:130-182 | what either cascade decides in terms of the type names: success means the decided type's compared part starts the text, failure means no type's does |
| VRWindow.KeysDistinct | Vrui/VRWindow.cpp:101-129 | no two type names share their first two characters, case ignored |
| VRWindow.RowIndex | Vrui/VRWindow.cpp:130-179 | every type has a row in the decoder's cascade |
| VRWindow.TableRows | Vrui/VRWindow.cpp:130-179 | in the corrected cascade each row compares and consumes its type's whole name, and no type has two rows |
| VRWindow.DecodeEncode | Vrui/VRWindow.cpp:101-182 | decoding a type's name, followed by any text, yields that type and consumes exactly the name |
| VRWindow.TrailingTextIsNotConsumed | Vrui/VRWindow.cpp:132-136 | "MonoX" decodes to Mono and consumes four characters; the match ignores case |
| VRWindow.UnknownTypeFails | Vrui/VRWindow.cpp:180-181 | "Stereo" matches no row and fails |
| VRWindow.FirstCharDiffers | Vrui/VRWindow.cpp:132 | texts whose first characters differ, case ignored, do not match |
| VRWindow.DecodeWithFirst | Vrui/VRWindow.cpp:130-182 | the cascade stops at the first row that matches |
| VRWindow.NotBeforeSplitViewport | Vrui/VRWindow.cpp:132-161 | text starting with 'S' matches none of the five rows before the split-viewport row |
| VRWindow.SplitViewportStereoFullAsWritten | Vrui/VRWindow.cpp:162-167 | as written, "SplitViewportStereo" decodes but only 18 of its 19 characters are consumed |
| VRWindow.SplitViewportStereoCutAsWritten | Vrui/VRWindow.cpp:162-167 | as written, the cut text "SplitViewportStere" is accepted as the split-viewport type |
| VRWindow.SplitViewportStereoCutRejected | Vrui/VRWindow.cpp:162-167 | when the whole name is compared, "SplitViewportStere" is rejected |
| VRWindow.SplitViewportStereoShortEnd | Vrui/VRWindow.cpp:162-167 | the decoder as written and the corrected one side by side: the short end of the match and the cut text it accepts |
| VRWindow.Upper | Vrui/VRWindow.cpp:859 | toupper in the C locale: only 'a'..'z' change |
| VRWindow.ParsePattern | Vrui/VRWindow.cpp:853-864 | the interleave pattern is accepted iff it has four characters, each 'L' or 'R' in either case. Cell [y][x] shows the right eye iff character y*2+x is 'R' |
| VRWindow.AlternatingByteBits | Vrui/VRWindow.cpp:873-876 | the byte a stipple row uses has its even bits from one pattern cell and its odd bits from the other |
| VRWindow.Stipple | Vrui/VRWindow.cpp:870-872 | each stipple holds 128 bytes |
| VRWindow.StippleBits | Vrui/VRWindow.cpp:866-877 | bit x%8 of byte y*4+x/8 of a stipple is set iff pattern cell [(y+yoff)%2][(x+xoff)%2] shows the right eye |
| VRWindow.StipplePatterns | Vrui/VRWindow.cpp:867-870 | there are four stipples, the one for offset (xoff, yoff) at index yoff*2+xoff |
| VRWindow.CRem | Vrui/VRWindow.cpp:818 | C's remainder: for a nonzero divisor it takes the dividend's sign, its size is the remainder of the sizes, and it lies strictly between -|b| and |b| |
| VRWindow.CDiv | Vrui/VRWindow.cpp:896 | C's division truncates toward zero: quotient times divisor plus C's remainder is the dividend, it is Euclidean division for non-negative operands, and its sign is the product of the operands' signs |
| VRWindow.TruncatedDivision | Vrui/VRWindow.cpp:896 | the quotient of the sizes, signed by the operands' signs, times the divisor, plus C's remainder, gives back the dividend |
| VRWindow.EyeIndexOffsetAsWritten | Vrui/VRWindow.cpp:818 | the offset as written lies in 0..3 for a window origin with no negative coordinate |
| VRWindow.NegativeOriginIndexesOutside | Vrui/VRWindow.cpp:1774 | a window origin at x = -1 gives offset -1, and (-1, -1) gives -3; both index outside the four-element stipple array |
| VRWindow.EyeIndexOffset | Vrui/VRWindow.cpp:1443 | corrected offset: always 0..3, with the origin's y parity as the high digit and its x parity as the low one; it agrees with the code wherever the code is right |
| VRWindow.EyeStippleFollowsScreen | Vrui/VRWindow.cpp:1774 | the stipple chosen by the offset puts pattern cell [(y+originY)%2][(x+originX)%2] at window pixel (x, y), so the pattern follows screen pixels wherever the window sits |
| VRWindow.TileRows | Vrui/VRWindow.cpp:895-896 | `(zones + columns - 1) / columns` with C's division on unchecked ints: a zero column count divides by zero; for a positive column count and no negative zones the rows hold every view zone with no spare row, and there are none iff there are no zones |
| VRWindow.ZoneTile | Vrui/VRWindow.cpp:1829-1830 | with no columns the division fails; otherwise zone z gets a column between 0 and the column count's size, row*columns+column == z, and the row has the sign of the column count |
| VRWindow.ZoneTilesInGrid | Vrui/VRWindow.cpp:1827-1832 | for a positive column count, every zone's tile lies within the grid, and distinct zones get distinct tiles |
| VRWindow.TileSize | Vrui/VRWindow.cpp:1810-1812 | zero tiles divide by zero; otherwise the window size minus tile times tiles lies between 0 and the tile count's size, and the tile size has the sign of the tile count |
| VRWindow.NoViewZonesDivideByZero | Vrui/VRWindow.cpp:893-896 | with no view zones the row count is 0 and the tile height divides by zero |
| VRWindow.NegativeColumnsFlipTiles | Vrui/VRWindow.cpp:893-896 | a negative column count is accepted: four zones in -1 columns give -2 rows, a negative tile height, and zone 1 in row -1 |
| VRWindow.CheckedTileGrid | Vrui/VRWindow.cpp:1805-1832 | corrected: a grid exists iff there is a view zone and a positive column count; then both tile counts are positive, both tile sizes are defined and non-negative, and the grid holds every zone |
| VRWindow.TileInsideWindow | Vrui/VRWindow.cpp:1831-1832 | the viewport of each tile lies inside the window |
| VRWindow.Decimal | Vrui/VRWindow.cpp:514-519 | the decimal digits of a number: at least one, all digits |
| VRWindow.DecimalRoundTrip | Vrui/VRWindow.cpp:514-519 | reading the digits back gives the number |
| VRWindow.DecimalLength | Vrui/VRWindow.cpp:519 | a number below 10^k has at most k digits, so a 32-bit count fits the buffer |
| VRWindow.FpsText | Vrui/VRWindow.cpp:508-524 | the frame-rate text is the integer part in decimal, '.', the tenths digit, then " fps" |
| Octets.U16At | IO/ZipArchive.cpp:441 | a little-endian 16-bit field read from the archive fits in 16 bits |
| Octets.U32At | IO/ZipArchive.cpp:441 | a little-endian 32-bit field read from the archive fits in 32 bits |
| Octets.LE16 | IO/ZipArchive.cpp:441 | the little-endian encoding of a 16-bit value takes two bytes |
| Octets.LE32 | IO/ZipArchive.cpp:441 | the little-endian encoding of a 32-bit value takes four bytes |
| Octets.U16RoundTrip | IO/ZipArchive.cpp:441 | a 16-bit value written little-endian reads back unchanged |
| Octets.U32RoundTrip | IO/ZipArchive.cpp:441 | a 32-bit value written little-endian reads back unchanged |
| Octets.LE16OfU16 | IO/ZipArchive.cpp:441 | two bytes read as a 16-bit value and written back are unchanged |
| ZipArchive.SignatureValues | IO/ZipArchive.cpp:445 | the bytes 50 4B 03 04, 50 4B 01 02 and 50 4B 05 06 read as the local header, central header and end-of-directory signatures |
| ZipArchive.SigAtIsEndOfDirectory | IO/ZipArchive.cpp:510-511 | where the search finds its byte pattern, the 32-bit read gives 0x06054b50 |
| ZipArchive.WindowStart | IO/ZipArchive.cpp:451 | the search window covers the last 70000 bytes, or the whole archive if it is smaller |
| ZipArchive.LastSignature | IO/ZipArchive.cpp:449-506 | the last signature position in a range, or None iff the range holds none |
| ZipArchive.LastSignatureIs | IO/ZipArchive.cpp:449-506 | a signature with no later one in the range is the last one |
| ZipArchive.StateAt | IO/ZipArchive.cpp:454 | the automaton state is always 0..3 before the signature is found |
| ZipArchive.StepTracks | IO/ZipArchive.cpp:474-504 | one step of the automaton on the previous byte gives state 4 exactly where the signature starts, and otherwise the state for the longer suffix |
| ZipArchive.Step | IO/ZipArchive.cpp:474-504 | from a state 0-3 the automaton moves to 0-4; a 06 always restarts the match at 1, and it advances to 2, 3 or 4 only on the next signature byte 05, 4B, 50 |
| ZipArchive.LocateEndOfDirectory | IO/ZipArchive.cpp:449-506 | the chunked backward search with its state carried across chunks finds exactly the last signature in the window, or none |
| ZipArchive.ReadEndOfDirectory | IO/ZipArchive.cpp:509-531 | the record is accepted only when it fits the archive and has the signature. The directory must end where the record starts, and the record with its comment must end the archive. Size and offset come from offsets 12 and 16 |
| ZipArchive.InitArchive | IO/ZipArchive.cpp:438-532 | code -1 iff the first local signature is wrong. Code -2 iff the window holds no end-of-directory signature. On success the record is the last signature in the window and passes the consistency checks |
| ZipArchive.GetNextEntry | IO/ZipArchive.cpp:587-644 | an iterator past the end stays as it is. A digital signature or the end-of-directory record invalidates the iterator. Any other header except a central file header is an error, raised exactly then. Otherwise the name has nameLen bytes and the next entry starts at s + 46 + nameLen + extraLen + commentLen |
| ZipArchive.ReadCentralEntry | IO/ZipArchive.cpp:609-643 | a central file header within the archive gives a valid iterator, a name of nameLen bytes and the next header's position |
| ZipArchive.GetNextEntryReads | IO/ZipArchive.cpp:606-643 | at a central file header, getNextEntry reads that entry |
| ZipArchive.StartAt | IO/ZipArchive.cpp:580-581 | the iterator readDirectory starts from has no file and the next header at the directory start; it is valid unless that position is 0 |
| ZipArchive.ReadDirectory | IO/ZipArchive.cpp:578-585 | readDirectory is one getNextEntry from the directory start, and the directory walk goes on from what it returns |
| ZipArchive.WalkAfter | IO/ZipArchive.cpp:649 | a failed step ends the walk with its error; a successful one starts the walk with its iterator iff that iterator is valid; every entry of the walk is valid |
| ZipArchive.WalkFrom | IO/ZipArchive.cpp:649 | every entry a directory loop sees is a valid iterator |
| ZipArchive.CString | IO/ZipArchive.cpp:652 | the part of a name strcmp compares: the bytes before the first NUL |
| ZipArchive.FirstMatch | IO/ZipArchive.cpp:649-654 | the first entry whose name compares equal to the query, or None iff no entry matches |
| ZipArchive.WalkFromIsWalkAfter | IO/ZipArchive.cpp:649 | the loop's walk is one getNextEntry followed by the walk from its result |
| ZipArchive.FindInSkip | IO/ZipArchive.cpp:652 | an entry that does not match leaves the search's outcome unchanged |
| ZipArchive.FindIn | IO/ZipArchive.cpp:646-658 | the search finds a walked entry with the queried name, fails iff no walked entry has that name, and then reports the walk's error or else FileNotFoundError |
| ZipArchive.FindFile | IO/ZipArchive.cpp:646-658 | findFile returns the first matching entry of the directory walk. If the walk fails first, its error is returned; otherwise FileNotFoundError carries the query |
| ZipArchive.OpenFile | IO/ZipArchive.cpp:660-683 | the bad-header error happens iff the local signature is not 0x04034b50. On success the method is read at offset 8 and the compressed size at 18, and the data starts at filePos + 30 + nameLen + extraLen |
| ZipRecords.EndOfDirectoryHeader | IO/ZipArchive.cpp:510-520 | the fixed part of the End of Central Directory record is 22 bytes |
| ZipRecords.EndOfDirectoryRecord | IO/ZipArchive.cpp:527 | the record with its comment is 22 bytes plus the comment |
| ZipRecords.EndOfDirectoryFields | IO/ZipArchive.cpp:510-520 | a written record reads back: the signature, then size at 12, offset at 16 and comment length at 20 |
| ZipRecords.SigAtIsEndOfDirectoryBytes | IO/ZipArchive.cpp:474-504 | the signature bytes 50 4B 05 06 are what the backward automaton finds |
| ZipRecords.RecordFitsWindow | IO/ZipArchive.cpp:451 | a record that ends the archive, even with a 65535-byte comment, starts inside the 70000-byte search window |
| ZipRecords.ReadEndOfDirectoryAccepts | IO/ZipArchive.cpp:509-531 | a consistent record passes the checks and gives the directory's offset and size |
| ZipRecords.InitArchiveReads | IO/ZipArchive.cpp:449-509 | after the first signature check, initArchive reads the record at the last signature in the window |
| ZipRecords.InitArchiveOfRecord | IO/ZipArchive.cpp:438-532 | an archive whose central directory is followed by its End of Central Directory record opens with that directory, unless later bytes spell the signature again |
| ZipRecords.CentralHeader | IO/ZipArchive.cpp:609-619 | a central file header's fixed part is 46 bytes |
| ZipRecords.CentralRecord | IO/ZipArchive.cpp:636-641 | the central record is the fixed part plus name, extra field and comment |
| ZipRecords.CentralRecordSizes | IO/ZipArchive.cpp:595-613 | a written central record reads back its signature and both sizes |
| ZipRecords.CentralRecordLengths | IO/ZipArchive.cpp:614-619 | a written central record reads back its three lengths and the local header's offset |
| ZipRecords.CentralRecordName | IO/ZipArchive.cpp:628-629 | the name follows the fixed part |
| ZipRecords.ReadCentralEntryFields | IO/ZipArchive.cpp:609-643 | a central header whose variable parts fit is read field by field into the iterator |
| ZipRecords.ReadCentralEntryOfFields | IO/ZipArchive.cpp:609-643 | the iterator holds the header's sizes, local offset and name, and the next entry starts after the comment |
| ZipRecords.GetNextEntryOfFields | IO/ZipArchive.cpp:587-643 | getNextEntry on a central header reads these fields |
| ZipRecords.GetNextEntryOfRecord | IO/ZipArchive.cpp:587-643 | reading back a written central record gives its fields, and the next entry starts right after the record |
| ZipRecords.LocalHeader | IO/ZipArchive.cpp:664-675 | a local file header's fixed part is 30 bytes |
| ZipRecords.LocalRecord | IO/ZipArchive.cpp:678-679 | the local record is the fixed part plus name and extra field |
| ZipRecords.LocalRecordFields | IO/ZipArchive.cpp:664-675 | a written local header reads back its signature, method, compressed size and both lengths |
| ZipRecords.OpenFileOfRecord | IO/ZipArchive.cpp:660-683 | opening a file whose local header was written at filePos finds its method and size, and its data right after the header, name and extra field |
| ZipDirectory.CStringNoNul | IO/ZipArchive.cpp:248 | a name without NUL is its own C string |
| ZipDirectory.CStringFrom | IO/ZipArchive.cpp:251-257 | the C string read from inside a NUL-terminated buffer is the rest of the name's C string |
| ZipDirectory.SlashIndex | IO/ZipArchive.cpp:257-258 | the name scan stops at the first '/' or at the end |
| ZipDirectory.SlashIndexIsFirst | IO/ZipArchive.cpp:257-258 | a position with no '/' before it and a '/' (or the end) at it is where the scan stops |
| ZipDirectory.Split | IO/ZipArchive.cpp:253-270 | the name the filter keeps for an entry never holds '/' |
| ZipDirectory.Classify | IO/ZipArchive.cpp:248-270 | the name the filter keeps for a stored entry name never holds '/' |
| ZipDirectory.DirPrefix | IO/ZipArchive.cpp:248-251 | what a stored name must start with: the path without its leading '/' followed by '/', or nothing at the root |
| ZipDirectory.ClassifyByPrefix | IO/ZipArchive.cpp:248-270 | the strncmp test with the '/' check after it is exactly a prefix test of the stored name's C string, followed by the name scan |
| ZipDirectory.PrefixSplitFile | IO/ZipArchive.cpp:253-264 | a name is taken as a file c iff it is the prefix followed by c, where c is non-empty and has no '/' |
| ZipDirectory.PrefixSplitSubdirectory | IO/ZipArchive.cpp:253-269 | a name is taken as a subdirectory c iff it is the prefix followed by c and one '/', and c has no '/' |
| ZipDirectory.SubdirectorySplits | IO/ZipArchive.cpp:265-269 | the prefix, c and a final '/' give subdirectory c |
| ZipDirectory.SplitIsSubdirectory | IO/ZipArchive.cpp:265-269 | a name taken as subdirectory c is the prefix, c and a final '/' |
| ZipDirectory.PrefixSplitDeeper | IO/ZipArchive.cpp:253-270 | the directory's own name and names below its subdirectories are dropped |
| ZipDirectory.ClassifyFile | IO/ZipArchive.cpp:248-264 | an entry is listed as file c iff its stored name is the directory prefix followed by c, where c is non-empty and has no '/' |
| ZipDirectory.ClassifySubdirectory | IO/ZipArchive.cpp:248-269 | an entry is listed as subdirectory c iff its stored name is the directory prefix, c and one '/', and c has no '/' |
| ZipDirectory.SelfAndDeeperExcluded | IO/ZipArchive.cpp:248-270 | the directory itself and anything below its subdirectories are not listed |
| ZipDirectory.Listing | IO/ZipArchive.cpp:245-272 | at most one listed entry per archive entry, and no listed name holds '/' |
| ZipDirectory.InListing | IO/ZipArchive.cpp:245-272 | an entry is listed iff its archive entry was walked and the filter accepts that entry's name with that kind and short name |
| ZipDirectory.AbsolutePath | IO/ZipArchive.cpp:234-237 | a '/' is prepended unless the path already starts with one; the given path ends the result |
| ZipDirectory.Open | IO/ZipArchive.cpp:231-276 | the constructor fails iff the directory walk fails, with the walk's error. Otherwise it lists the filtered entries in the order of the central directory, and the cursor starts at end() |
| ZipDirectory.Rewind | IO/ZipArchive.cpp:324-328 | rewind puts the cursor at end() and keeps the listing |
| ZipDirectory.ReadNextEntry | IO/ZipArchive.cpp:330-339 | readNextEntry keeps the listing and returns true iff the cursor is not at end() afterwards |
| ZipDirectory.Reads | IO/ZipArchive.cpp:330-344 | k calls of readNextEntry give k results |
| ZipDirectory.Names | IO/ZipArchive.cpp:341-344 | the names the listed entries report, in order |
| ZipDirectory.ReadsFrom | IO/ZipArchive.cpp:330-344 | from any entry on, the calls visit the remaining entries in order, then report the end |
| ZipDirectory.ReadsCycle | IO/ZipArchive.cpp:274-275 | after construction or rewind, one call per entry plus one lists every entry in order and then reports the end |
| ZipDirectory.ReadNextEntryFalse | IO/ZipArchive.cpp:338 | readNextEntry returns false exactly when it steps off the last entry, or when the listing is empty |
| ZipDirectory.GetEntryName | IO/ZipArchive.cpp:341-344 | getEntryName is the name the listing reports at the cursor |
| ZipDirectory.ListedEntryClassified | IO/ZipArchive.cpp:341-352 | the name and the file-or-directory type reported at the cursor are what the filter decided for a walked archive entry |
| ZipDirectory.LastSlash | IO/ZipArchive.cpp:280 | the last '/' of the path; no '/' follows it |
| ZipDirectory.GetName | IO/ZipArchive.cpp:278-281 | getName is the path's last component: it has no '/' and follows the last '/' |
| ZipDirectory.HasParent | IO/ZipArchive.cpp:300-303 | every directory path but the root has a parent |
| ZipDirectory.GetParentPath | IO/ZipArchive.cpp:300-322 | there is no parent iff hasParent is false. The parent path is a shorter prefix of the path and starts with '/' |
| ZipDirectory.ChildPath | IO/ZipArchive.cpp:367-377 | openDirectory's path is the path, a '/' unless at the root, and the name |
| ZipDirectory.ParentOfChild | IO/ZipArchive.cpp:305-322 | a subdirectory's parent is the directory it was opened from, and its name is the name it was opened with |
| ZipDirectory.ChildOfParent | IO/ZipArchive.cpp:305-322 | a path below the root is its parent's child under its own name |

## Left out

- Wiimote transport and concurrency: Bluetooth discovery, L2CAP sockets, the receiver thread, mutexes, condition variables and the unbounded acknowledgement waits. Transfers are sequential state updates driven by packets, and the packets a call sends are returned as values.
- Wiimote floating-point work: joystick mapping, accelerometer calibration, getAcceleration and loading calibration from the configuration file. Only the raw integer readings are modelled.
- ZIP data: zlib inflation, the streaming and seekable file classes, and openSeekableFile. openFile stops at the compression method, data position and compressed size it would hand over.
- ZIP memory handling: the iterator's name buffer and its copy and assignment. The name is a value.
- normalizePath and getLastComponent are not part of this model. The directory path is taken as already normalised, and getName takes the text after the last '/'.
- ZipDirectory.Open: a path that contains a NUL byte is not modelled, because the C string of such a path is shorter than the std::string length the filter uses. ClassifyByPrefix and the lemmas built on it assume a path without NUL.
- ZipArchiveDirectory::getPath and ZipArchiveDirectory::openFile: both build a path with normalizePath, which is not part of this model. openDirectory's path construction is modelled by ZipDirectory.ChildPath.
- Reads past the end of the archive, which throw in the code, are the error ReadFailure. The error messages are not modelled.
- TripleBuffer: `volatile` and memory ordering between the threads. Only the sequential index protocol is modelled.
- VRWindow: all OpenGL, GLX and X11 work, and the viewport, cursor and floating-point texture-coordinate calculations. The WindowPos value coder is left out too. The tile counts are unbounded integers: `asNumViewZones + asNumTiles[0] - 1` at VRWindow.cpp:896 is an int sum, and the counts are assumed small enough that it does not overflow.
- Playback: wall-clock synchronisation, sound, movie frame timing and the copying of screenshots. Poses, valuators and time stamps are opaque values of a type parameter. The width of Vrui's Scalar type is a parameter of the byte layout, because its definition is not part of this model.
- Playback file format: the file is a stream of typed values (ints, floating-point values and 40-byte names), not raw bytes. Header values and the next time stamp are kind-checked, so IsHeader, Open and Update fail on a value of the wrong kind there, which a file the recorder wrote never holds; device records are taken as they come, whatever their kind; the source reads raw bytes, reinterprets whatever is there, and fails only at the end of the file. FrameLayout ties the value order to the byte layout of a frame.
- ReadHeader: a negative button or valuator count reads as none. The counts go to createInputDevice, which is not part of this model; the update loop's `i < count` loops run zero times for a negative count, which is what the model keeps.
- RunPackets: the packets the status handler itself waits for (the enable acknowledgement, the type reply and the calibration reply) are not dispatched; each read carries the type reply its status handler would read. The calibration reply only feeds floating-point calibration.
- Playback.Open: the device names, ray directions and glyph configuration read with the headers are not kept. Only the layouts the update loop needs are kept.
- TwoHandedNavigation: the navigation transforms and their composition are floating-point geometry and are left out. activate() succeeding or failing is an input.
- Glyph rendering and the GL resources of the glyph renderer.
- KdTree: point coordinates, the tree's construction from points, and searches are not part of the traversal and are left out.
- CursorTextureSize: requires image sizes up to 2^31. Above that the `unsigned int` doubling wraps from 2^31 to 0 and the loop never ends.
- ControlKey.Hash: requires a modifier mask in 0..255 and a sum that fits a 32-bit int. A mask in 128..255 shifts into the sign bit and is modelled (ShiftedMask); a negative mask or one of 256 and above has no defined shift before C++20, and a sum outside the int range is signed overflow, undefined in every C++ version; those keys are not modelled.
- Thin wrappers and declaration-only files (thread wrapper, network client, GL extension loaders, scene-graph and widget headers, example programs) hold nothing of this core.

## Findings

| source | as written | input that shows it | evidently intended | confidence | as-written member | corrected member |
|---|---|---|---|---|---|---|
| VRDeviceDaemon/Wiimote.cpp:527-539 | report 0x37 reads its extension block at bytes 17-22 | any 0x37 report: the block ends at byte 23, beyond the 21-byte receive buffer | a receive buffer that holds the whole report (23 bytes) | not executed | WiimoteReports.Report37OverrunsDeclaredBuffer | WiimoteReports.LayoutsFitReportBuffer |
| VRDeviceDaemon/Wiimote.cpp:436-437 | `downloadSize -= (packet[4] >> 4) + 1` on a `size_t` | a read of 0 bytes, or a reply announcing more bytes than remain: the count wraps to about 2^64 and completion is never signalled | the count stops at zero and the requester is woken | not executed | WiimoteTransfer.OvershootNeverCompletes | WiimoteTransfer.DownloadRunDelivers |
| VRDeviceDaemon/Wiimote.cpp:564-569 | a zero-length read is started as an active transfer | downloadData with size 0 | a zero-length read completes at once with no data | not executed | WiimoteTransfer.ZeroLengthReadNeverCompletes | WiimoteTransfer.StartDownloadFixed |
| Vrui/VRWindow.cpp:162-167 | the split-viewport branch compares and consumes 18 characters | "SplitViewportStereo" leaves its final 'o' unconsumed, and "SplitViewportStere" is accepted | compare and consume all 19 characters, like every other branch | not executed | VRWindow.SplitViewportStereoShortEnd | VRWindow.DecodeEncode |
| Vrui/VRWindow.cpp:818 | `(originY % 2) * 2 + (originX % 2)` with C's signed remainder | window origin x = -1 gives -1, which indexes the four-element stipple array | the pixel parity of the origin, always 0..3 | not executed | VRWindow.NegativeOriginIndexesOutside | VRWindow.EyeStippleFollowsScreen |
| Geometry/ArrayKdTree.h:114-118 | traverseTree recurses on (0, numNodes - 1) unconditionally | the default-constructed tree with 0 nodes visits index -1 | an empty tree visits nothing | not executed | KdTree.EmptyTreeVisitsMinusOne | KdTree.TraverseTree |
| Vrui/InputDeviceAdapterPlayback.cpp:142-156 | after '%' the loop reads and steps past the next character without checking for the end | "frame%" and "frame%05" make the iterator run past end() | stop at the end of the string and refuse the template | not executed | MovieTemplate.TrailingConversionOverruns | MovieTemplate.AcceptedIffWellFormed |
| VRDeviceDaemon/Wiimote.cpp:431-433 | the copy loop reads `packet[7 + i]` for up to 16 data bytes from the 21-byte receive buffer | a read reply whose byte 4 has high nibble 0xe or 0xf carries 15 or 16 bytes and reads `packet[21]` and `packet[22]` | a receive buffer that holds the whole 23-byte report | not executed | WiimoteReceiver.ReplyOverrunsDeclaredBuffer | WiimoteReceiver.ReplyFitsReportBuffer |
| Vrui/VRWindow.cpp:893-896 | the tile row count is computed from the configured zone and column counts without a check, then divides the window height at line 1810 | `autostereoNumViewZones = 0` gives 0 rows, and line 1810 divides by 0; `autostereoNumTileColumns = 0` divides by 0 at line 896 | refuse a configuration without view zones or columns | not executed | VRWindow.NoViewZonesDivideByZero | VRWindow.CheckedTileGrid |
| Vrui/VRWindow.cpp:893-896 | the tile counts are C ints read from the configuration with no sign check | `autostereoNumTileColumns = -1` with four zones gives -2 rows, a negative tile height, and zone 1 in row -1 | refuse a non-positive column count | not executed | VRWindow.NegativeColumnsFlipTiles | VRWindow.CheckedTileGrid |

/** Decoding of the Wiimote's input reports: the compaction of the button
    bits, the assembly of accelerometer values, the transform applied to
    extension bytes, the unpacking of IR camera targets and the table that
    says where each report identifier keeps which field. */
module WiimoteReports {
  import opened Bytes
  import opened Wrappers

  /* ---------------------------------------------------------------- */
  /* Enumerations                                                       */
  /* ---------------------------------------------------------------- */

  datatype Extension = NoExtension | PartiallyConnected | Nunchuk | ClassicController

  /** The enumeration value of each extension type. */
  function ExtensionOrdinal(e: Extension): nat
  {
    match e
    case NoExtension => 0
    case PartiallyConnected => 1
    case Nunchuk => 2
    case ClassicController => 3
  }

  datatype Button =
    | Two | One | B | A | Minus | Home | Left | Right | Down | Up | Plus  // core buttons
    | Z | C                                                             // nunchuk buttons

  /** The enumeration value of each button, which is also the bit of the
      button field that `getButtonState` tests. */
  function ButtonIndex(b: Button): nat
  {
    match b
    case Two => 0
    case One => 1
    case B => 2
    case A => 3
    case Minus => 4
    case Home => 5
    case Left => 6
    case Right => 7
    case Down => 8
    case Up => 9
    case Plus => 10
    case Z => 11
    case C => 12
  }

  lemma ButtonIndicesDistinct(b1: Button, b2: Button)
    ensures ButtonIndex(b1) < 13
    ensures ButtonIndex(b1) == ButtonIndex(b2) ==> b1 == b2
  {
  }

  /** getButtonState: tests bit i of the button field. */
  function ButtonPressed(buttons: bv32, i: nat): bool
    requires i < 32
  {
    buttons & (1 << i) != 0
  }

  /** Number of buttons reported for an extension type: the buttons
      reported are those of the enumeration below that count, so the
      nunchuk's Z and C count only while an extension is connected. */
  function NumButtons(e: Extension): (n: nat)
    ensures forall b: Button ::
      ButtonIndex(b) < n <==> (b != Z && b != C) || e == Nunchuk || e == ClassicController
  {
    match e
    case NoExtension => 11
    case PartiallyConnected => 11
    case Nunchuk => 13
    case ClassicController => 13
  }

  /** getBatteryLevel: the raw level (read from a byte, documented range
      0-200) halved, rounding halves up. */
  function BatteryPercent(level: nat): (p: nat)
    ensures level <= 2 * p <= level + 1
    ensures level <= 200 ==> p <= 100
  {
    (level + 1) / 2
  }

  /** The documented range maps onto 0-100 percent, monotonically. */
  lemma BatteryPercentMonotone(l1: nat, l2: nat)
    requires l1 <= l2
    ensures BatteryPercent(l1) <= BatteryPercent(l2)
    ensures BatteryPercent(0) == 0 && BatteryPercent(200) == 100
  {
  }

  /* ---------------------------------------------------------------- */
  /* Buttons                                                            */
  /* ---------------------------------------------------------------- */

  /** updateCoreButtons: compacts the button bits of the two button bytes
      into bits 0-10 of the button field. */
  function CoreButtons(b0: Byte, b1: Byte): (r: bv32)
    ensures r < 0x800
    ensures r & 0x1f == (b1 as bv32) & 0x1f
    ensures (r >> 5) & 1 == ((b1 as bv32) >> 7) & 1
    ensures r >> 6 == (b0 as bv32) & 0x1f
  {
    ((b1 as bv32) & 0x1f) | (((b1 as bv32) & 0x80) >> 2) | (((b0 as bv32) & 0x1f) << 6)
  }

  /** Position of each core button in the button bytes of a report,
      as (byte index, bit index), following the Wiimote's wire format. */
  function WirePosition(b: Button): (int, nat)
    requires b != Z && b != C
  {
    match b
    case Two => (1, 0)
    case One => (1, 1)
    case B => (1, 2)
    case A => (1, 3)
    case Minus => (1, 4)
    case Home => (1, 7)
    case Left => (0, 0)
    case Right => (0, 1)
    case Down => (0, 2)
    case Up => (0, 3)
    case Plus => (0, 4)
  }

  function ByteBit(b: Byte, i: nat): bool
    requires i < 8
  {
    b & (1 << i) != 0
  }

  /** The compaction puts every core button at the bit named by its
      enumeration value, and leaves the nunchuk buttons released. */
  lemma CoreButtonsFollowEnumeration(b0: Byte, b1: Byte, b: Button)
    ensures b != Z && b != C ==>
      var (byteIndex, bit) := WirePosition(b);
      ButtonPressed(CoreButtons(b0, b1), ButtonIndex(b)) == ByteBit(if byteIndex == 0 then b0 else b1, bit)
    ensures b == Z || b == C ==> !ButtonPressed(CoreButtons(b0, b1), ButtonIndex(b))
  {
    var r := CoreButtons(b0, b1);
    match b
    case Two =>
    case One =>
    case B =>
    case A =>
    case Minus =>
    case Home =>
    case Left =>
    case Right =>
    case Down =>
    case Up =>
    case Plus =>
    case Z =>
    case C =>
  }

  /** The button bytes a device sends for a given 11-bit core button field
      (all other bits of the two bytes clear). */
  function ButtonBytes(r: bv32): (Byte, Byte)
    requires r < 0x800
  {
    (((r >> 6) & 0x1f) as Byte, ((r & 0x1f) | (((r >> 5) & 1) << 7)) as Byte)
  }

  /** Decoding the bytes of any core button field gives that field back. */
  lemma CoreButtonsRoundTrip(r: bv32)
    requires r < 0x800
    ensures CoreButtons(ButtonBytes(r).0, ButtonBytes(r).1) == r
  {
  }

  /** Re-encoding a decoded field reproduces the button bits of the two
      bytes and drops exactly the bits that carry no button. */
  lemma ButtonBytesOfCoreButtons(b0: Byte, b1: Byte)
    ensures ButtonBytes(CoreButtons(b0, b1)) == (b0 & 0x1f, b1 & 0x9f)
  {
  }

  /* ---------------------------------------------------------------- */
  /* Accelerometers                                                     */
  /* ---------------------------------------------------------------- */

  /** updateCoreAccelerometers (integer part): each axis is its accelerometer
      byte shifted left once, with one low bit taken from the button bytes. */
  function CoreAccelerometers(b0: Byte, b1: Byte, accel: seq<Byte>): (r: seq<bv16>)
    requires |accel| >= 3
    ensures |r| == 3
    ensures forall i :: 0 <= i < 3 ==> r[i] < 512 && r[i] >> 1 == accel[i] as bv16
    ensures r[0] & 1 == ((b0 as bv16) >> 6) & 1
    ensures r[1] & 1 == ((b1 as bv16) >> 5) & 1
    ensures r[2] & 1 == ((b1 as bv16) >> 6) & 1
  {
    [ ((accel[0] as bv16) << 1) | (((b0 as bv16) >> 6) & 1),
      ((accel[1] as bv16) << 1) | (((b1 as bv16) >> 5) & 1),
      ((accel[2] as bv16) << 1) | (((b1 as bv16) >> 6) & 1) ]
  }

  /** The nunchuk's accelerometer axes: each decoded byte 2-4 shifted left
      twice, with two low bits taken from decoded byte 5. */
  function ExtensionAccelerometers(ext: seq<Byte>): (r: seq<bv16>)
    requires |ext| >= 6
    ensures |r| == 3
    ensures forall i :: 0 <= i < 3 ==> r[i] < 1024 && r[i] >> 2 == ext[2 + i] as bv16
    ensures r[0] & 3 == ((ext[5] as bv16) >> 2) & 3
    ensures r[1] & 3 == ((ext[5] as bv16) >> 4) & 3
    ensures r[2] & 3 == ((ext[5] as bv16) >> 6) & 3
  {
    [ ((ext[2] as bv16) << 2) | (((ext[5] as bv16) >> 2) & 3),
      ((ext[3] as bv16) << 2) | (((ext[5] as bv16) >> 4) & 3),
      ((ext[4] as bv16) << 2) | (((ext[5] as bv16) >> 6) & 3) ]
  }

  /* ---------------------------------------------------------------- */
  /* Extension bytes                                                    */
  /* ---------------------------------------------------------------- */

  /** The transform applied to every extension byte before it is read. */
  function Deobfuscate(b: Byte): (r: Byte)
    ensures (r - 0x17) ^ 0x17 == b
  {
    (b ^ 0x17) + 0x17
  }

  /** Its inverse: what the device sends for a decoded byte c. */
  function Obfuscate(c: Byte): (r: Byte)
    ensures Deobfuscate(r) == c
  {
    (c - 0x17) ^ 0x17
  }

  /** The transform is a bijection on bytes. */
  lemma DeobfuscateBijective(b: Byte, c: Byte)
    ensures Deobfuscate(Obfuscate(c)) == c
    ensures Obfuscate(Deobfuscate(b)) == b
    ensures Deobfuscate(b) == Deobfuscate(c) ==> b == c
  {
    assert Obfuscate(Deobfuscate(b)) == b;
    assert Obfuscate(Deobfuscate(c)) == c;
  }

  /** Applies the transform to bytes lo..hi-1 and keeps the others. */
  function DeobfuscateRange(s: seq<Byte>, lo: int, hi: int): (r: seq<Byte>)
    requires 0 <= lo
    ensures |r| == |s|
    ensures forall i :: 0 <= i < |s| ==> r[i] == if lo <= i < hi then Deobfuscate(s[i]) else s[i]
  {
    seq(|s|, i requires 0 <= i < |s| => if lo <= i < hi then Deobfuscate(s[i]) else s[i])
  }

  function ObfuscateRange(s: seq<Byte>, lo: int, hi: int): (r: seq<Byte>)
    requires 0 <= lo
    ensures |r| == |s|
    ensures forall i :: 0 <= i < |s| ==> r[i] == if lo <= i < hi then Obfuscate(s[i]) else s[i]
  {
    seq(|s|, i requires 0 <= i < |s| => if lo <= i < hi then Obfuscate(s[i]) else s[i])
  }

  /** Decoding a range of transformed bytes gives back the original bytes. */
  lemma DeobfuscateRangeRoundTrip(s: seq<Byte>, lo: nat, hi: int)
    ensures DeobfuscateRange(ObfuscateRange(s, lo, hi), lo, hi) == s
  {
    var t := DeobfuscateRange(ObfuscateRange(s, lo, hi), lo, hi);
    forall i | 0 <= i < |s|
      ensures t[i] == s[i]
    {
      DeobfuscateBijective(s[i], s[i]);
    }
  }

  /** updateExtension decodes exactly the 6 bytes of the extension block;
      the calibration reply is decoded from byte 7 to the end of the packet. */
  function DecodeExtensionBlock(block: seq<Byte>): (r: seq<Byte>)
    requires |block| == 6
    ensures |r| == 6
    ensures forall i :: 0 <= i < 6 ==> r[i] == Deobfuscate(block[i])
  {
    DeobfuscateRange(block, 0, 6)
  }

  function DecodeCalibrationReply(packet: seq<Byte>, packetSize: int): (r: seq<Byte>)
    requires packetSize <= |packet|
    ensures |r| == |packet|
    ensures forall i :: 0 <= i < |packet| ==> r[i] == if 7 <= i < packetSize then Deobfuscate(packet[i]) else packet[i]
  {
    DeobfuscateRange(packet, 7, packetSize)
  }

  /** The extension type code read from bytes 7-8 of the type reply; codes
      other than the four known ones leave the current type unchanged. */
  function ExtensionFromCode(code: int, current: Extension): (e: Extension)
    ensures code == 0x0000 ==> e == NoExtension
    ensures code == 0xffff ==> e == PartiallyConnected
    ensures code == 0xfefe ==> e == Nunchuk
    ensures code == 0xfdfd ==> e == ClassicController
    ensures code !in {0x0000, 0xffff, 0xfefe, 0xfdfd} ==> e == current
  {
    if code == 0x0000 then NoExtension
    else if code == 0xffff then PartiallyConnected
    else if code == 0xfefe then Nunchuk
    else if code == 0xfdfd then ClassicController
    else current
  }

  /** The type code the device reports for each extension type. */
  function ExtensionCode(e: Extension): int
  {
    match e
    case NoExtension => 0x0000
    case PartiallyConnected => 0xffff
    case Nunchuk => 0xfefe
    case ClassicController => 0xfdfd
  }

  lemma ExtensionCodeRoundTrip(e: Extension, current: Extension)
    ensures ExtensionFromCode(ExtensionCode(e), current) == e
  {
  }

  /** The nunchuk's Z and C buttons are active low in bits 0 and 1 of
      decoded byte 5 and are ORed into bits 11 and 12 of the button field. */
  function NunchukButtons(buttons: bv32, ext5: Byte): (r: bv32)
    ensures r & 0xffff_e7ff == buttons & 0xffff_e7ff
    ensures ButtonPressed(r, 11) == (ButtonPressed(buttons, 11) || ext5 & 1 == 0)
    ensures ButtonPressed(r, 12) == (ButtonPressed(buttons, 12) || ext5 & 2 == 0)
  {
    buttons | (((!(ext5 as bv32)) & 0x03) << 11)
  }

  /* ---------------------------------------------------------------- */
  /* IR camera targets                                                  */
  /* ---------------------------------------------------------------- */

  datatype Target = Target(valid: bool, x: bv16, y: bv16)

  const InvalidCoordinate: bv16 := 0x3ff

  /** Stores a decoded coordinate pair in a target slot: a pair with either
      coordinate at the sentinel marks the slot invalid and keeps its prev
      position. */
  function UpdateTarget(prev: Target, x: bv16, y: bv16): (t: Target)
    ensures t.valid <==> x != InvalidCoordinate && y != InvalidCoordinate
    ensures t.valid ==> t.x == x && t.y == y
    ensures !t.valid ==> t.x == prev.x && t.y == prev.y
  {
    if x != InvalidCoordinate && y != InvalidCoordinate then Target(true, x, y)
    else prev.(valid := false)
  }

  /** Ten-bit coordinate from a low byte and two high bits of a shared byte. */
  function Coordinate(low: Byte, shared: Byte, mask: bv16, shift: nat): (c: bv16)
    requires shift <= 8
    requires (mask == 0x30 && shift == 4) || (mask == 0xc0 && shift == 2)
          || (mask == 0x03 && shift == 8) || (mask == 0x0c && shift == 6)
    ensures c < 1024
    ensures c & 0xff == low as bv16
  {
    (low as bv16) | (((shared as bv16) & mask) << shift)
  }

  /** Basic mode: two 5-byte groups, each holding two targets whose high
      bits share the middle byte of the group. */
  function BasicX0(d: seq<Byte>, g: nat): bv16 requires g < 2 && |d| >= 10 { Coordinate(d[5 * g], d[5 * g + 2], 0x30, 4) }
  function BasicY0(d: seq<Byte>, g: nat): bv16 requires g < 2 && |d| >= 10 { Coordinate(d[5 * g + 1], d[5 * g + 2], 0xc0, 2) }
  function BasicX1(d: seq<Byte>, g: nat): bv16 requires g < 2 && |d| >= 10 { Coordinate(d[5 * g + 3], d[5 * g + 2], 0x03, 8) }
  function BasicY1(d: seq<Byte>, g: nat): bv16 requires g < 2 && |d| >= 10 { Coordinate(d[5 * g + 4], d[5 * g + 2], 0x0c, 6) }

  /** updateIRTrackingBasic */
  function IRBasic(d: seq<Byte>, prev: seq<Target>): (r: seq<Target>)
    requires |d| >= 10 && |prev| == 4
    ensures |r| == 4
    ensures forall j :: 0 <= j < 4 ==> r[j].valid ==> r[j].x < InvalidCoordinate && r[j].y < InvalidCoordinate
    ensures forall j :: 0 <= j < 4 ==> !r[j].valid ==> r[j].x == prev[j].x && r[j].y == prev[j].y
    ensures r[0] == UpdateTarget(prev[0], BasicX0(d, 0), BasicY0(d, 0))
    ensures r[1] == UpdateTarget(prev[1], BasicX1(d, 0), BasicY1(d, 0))
    ensures r[2] == UpdateTarget(prev[2], BasicX0(d, 1), BasicY0(d, 1))
    ensures r[3] == UpdateTarget(prev[3], BasicX1(d, 1), BasicY1(d, 1))
  {
    [ UpdateTarget(prev[0], BasicX0(d, 0), BasicY0(d, 0)),
      UpdateTarget(prev[1], BasicX1(d, 0), BasicY1(d, 0)),
      UpdateTarget(prev[2], BasicX0(d, 1), BasicY0(d, 1)),
      UpdateTarget(prev[3], BasicX1(d, 1), BasicY1(d, 1)) ]
  }

  /** Extended mode: four 3-byte groups, one target each. */
  function ExtendedX(d: seq<Byte>, g: nat): bv16 requires g < 4 && |d| >= 12 { Coordinate(d[3 * g], d[3 * g + 2], 0x30, 4) }
  function ExtendedY(d: seq<Byte>, g: nat): bv16 requires g < 4 && |d| >= 12 { Coordinate(d[3 * g + 1], d[3 * g + 2], 0xc0, 2) }

  /** updateIRTrackingExtended */
  function IRExtended(d: seq<Byte>, prev: seq<Target>): (r: seq<Target>)
    requires |d| >= 12 && |prev| == 4
    ensures |r| == 4
    ensures forall j :: 0 <= j < 4 ==> r[j] == UpdateTarget(prev[j], ExtendedX(d, j), ExtendedY(d, j))
    ensures forall j :: 0 <= j < 4 ==> r[j].valid ==> r[j].x < InvalidCoordinate && r[j].y < InvalidCoordinate
  {
    seq(4, j requires 0 <= j < 4 => UpdateTarget(prev[j], ExtendedX(d, j), ExtendedY(d, j)))
  }

  /** What the camera sends in basic mode for four coordinate pairs
      (xs[j], ys[j]) of 10 bits each. */
  function EncodeBasicGroup(x0: bv16, y0: bv16, x1: bv16, y1: bv16): (s: seq<Byte>)
    requires x0 < 1024 && y0 < 1024 && x1 < 1024 && y1 < 1024
    ensures |s| == 5
  {
    [ (x0 & 0xff) as Byte,
      (y0 & 0xff) as Byte,
      ((((x0 >> 8) & 3) << 4) | (((y0 >> 8) & 3) << 6) | ((x1 >> 8) & 3) | (((y1 >> 8) & 3) << 2)) as Byte,
      (x1 & 0xff) as Byte,
      (y1 & 0xff) as Byte ]
  }

  function EncodeBasic(xs: seq<bv16>, ys: seq<bv16>): (d: seq<Byte>)
    requires |xs| == 4 && |ys| == 4
    requires forall j :: 0 <= j < 4 ==> xs[j] < 1024 && ys[j] < 1024
    ensures |d| == 10
  {
    EncodeBasicGroup(xs[0], ys[0], xs[1], ys[1]) + EncodeBasicGroup(xs[2], ys[2], xs[3], ys[3])
  }

  lemma BasicGroupRoundTrip(x0: bv16, y0: bv16, x1: bv16, y1: bv16, d: seq<Byte>, g: nat)
    requires x0 < 1024 && y0 < 1024 && x1 < 1024 && y1 < 1024
    requires g < 2 && |d| >= 10 && d[5 * g..5 * g + 5] == EncodeBasicGroup(x0, y0, x1, y1)
    ensures BasicX0(d, g) == x0 && BasicY0(d, g) == y0
    ensures BasicX1(d, g) == x1 && BasicY1(d, g) == y1
  {
    var e := EncodeBasicGroup(x0, y0, x1, y1);
    assert d[5 * g] == e[0] && d[5 * g + 1] == e[1] && d[5 * g + 2] == e[2];
    assert d[5 * g + 3] == e[3] && d[5 * g + 4] == e[4];
  }

  /** Basic-mode decoding recovers every encoded position; a slot is valid
      exactly when neither of its coordinates is the sentinel. */
  lemma IRBasicRoundTrip(xs: seq<bv16>, ys: seq<bv16>, prev: seq<Target>)
    requires |xs| == 4 && |ys| == 4 && |prev| == 4
    requires forall j :: 0 <= j < 4 ==> xs[j] < 1024 && ys[j] < 1024
    ensures forall j :: 0 <= j < 4 ==>
      IRBasic(EncodeBasic(xs, ys), prev)[j] == UpdateTarget(prev[j], xs[j], ys[j])
  {
    var d := EncodeBasic(xs, ys);
    assert d[0..5] == EncodeBasicGroup(xs[0], ys[0], xs[1], ys[1]);
    assert d[5..10] == EncodeBasicGroup(xs[2], ys[2], xs[3], ys[3]);
    BasicGroupRoundTrip(xs[0], ys[0], xs[1], ys[1], d, 0);
    BasicGroupRoundTrip(xs[2], ys[2], xs[3], ys[3], d, 1);
  }

  /** What the camera sends in extended mode: per target the low bytes and
      a third byte with the high bits and a 4-bit blob size. */
  function EncodeExtendedGroup(x: bv16, y: bv16, size: bv16): (s: seq<Byte>)
    requires x < 1024 && y < 1024 && size < 16
    ensures |s| == 3
  {
    [ (x & 0xff) as Byte, (y & 0xff) as Byte, ((((x >> 8) & 3) << 4) | (((y >> 8) & 3) << 6) | size) as Byte ]
  }

  lemma ExtendedGroupRoundTrip(x: bv16, y: bv16, size: bv16, d: seq<Byte>, g: nat)
    requires x < 1024 && y < 1024 && size < 16
    requires g < 4 && |d| >= 12 && d[3 * g..3 * g + 3] == EncodeExtendedGroup(x, y, size)
    ensures ExtendedX(d, g) == x && ExtendedY(d, g) == y
  {
    var e := EncodeExtendedGroup(x, y, size);
    assert d[3 * g] == e[0] && d[3 * g + 1] == e[1] && d[3 * g + 2] == e[2];
  }

  /* ---------------------------------------------------------------- */
  /* Report layouts                                                     */
  /* ---------------------------------------------------------------- */

  datatype IRFormat = BasicIR | ExtendedIR

  /** Byte offsets of the optional fields of a data report; the two button
      bytes are always at offsets 2 and 3, after the 0xa1 framing byte and
      the report identifier. */
  datatype Layout = Layout(accel: Option<nat>, ir: Option<(IRFormat, nat)>, ext: Option<nat>)

  const AccelBytes: nat := 3
  const ExtensionBytes: nat := 6

  function IRBytes(f: IRFormat): nat
  {
    match f
    case BasicIR => 10
    case ExtendedIR => 12
  }

  /** The dispatch of the receiver loop for the button/data reports: the
      seven data reports, each with the fields its name lists. */
  function ReportLayout(id: Byte): (r: Option<Layout>)
    ensures r.Some? <==> id in {0x30, 0x31, 0x32, 0x33, 0x35, 0x36, 0x37}
    ensures r.Some? ==> (r.value.accel.Some? <==> id in {0x31, 0x33, 0x35, 0x37})
    ensures r.Some? ==> (r.value.ir.Some? <==> id in {0x33, 0x36, 0x37})
    ensures r.Some? ==> (r.value.ext.Some? <==> id in {0x32, 0x35, 0x36, 0x37})
    ensures r.Some? && r.value.ir.Some? ==> (r.value.ir.value.0 == ExtendedIR <==> r.value.ext.None?)
  {
    if id == 0x30 then Some(Layout(None, None, None))
    else if id == 0x31 then Some(Layout(Some(4), None, None))
    else if id == 0x32 then Some(Layout(None, None, Some(4)))
    else if id == 0x33 then Some(Layout(Some(4), Some((ExtendedIR, 7)), None))
    else if id == 0x35 then Some(Layout(Some(4), None, Some(7)))
    else if id == 0x36 then Some(Layout(None, Some((BasicIR, 4)), Some(14)))
    else if id == 0x37 then Some(Layout(Some(4), Some((BasicIR, 7)), Some(17)))
    else None
  }

  /** One past the last byte any field of the layout reads. */
  function LayoutEnd(l: Layout): nat
  {
    var a := if l.accel.Some? then l.accel.value + AccelBytes else 4;
    var i := if l.ir.Some? then l.ir.value.1 + IRBytes(l.ir.value.0) else 4;
    var e := if l.ext.Some? then l.ext.value + ExtensionBytes else 4;
    if a >= i && a >= e then a else if i >= e then i else e
  }

  /** The fields of a layout follow the button bytes in the order
      accelerometers, IR, extension, without overlapping. */
  ghost predicate Packed(l: Layout)
  {
    var afterAccel := if l.accel.Some? then l.accel.value + AccelBytes else 4;
    var afterIR := if l.ir.Some? then l.ir.value.1 + IRBytes(l.ir.value.0) else afterAccel;
    && (l.accel.Some? ==> l.accel.value == 4)
    && (l.ir.Some? ==> l.ir.value.1 == afterAccel)
    && (l.ext.Some? ==> l.ext.value == afterIR)
  }

  /** The receive buffer of the receiver loop as declared: 21 bytes. */
  const DeclaredReceiveBuffer: nat := 21

  /** A buffer that holds every report the dispatch reads. */
  const ReportBuffer: nat := 23

  /** Report 0x37 reads its extension block from bytes 17-22, past the end of
      the declared 21-byte buffer. */
  lemma Report37OverrunsDeclaredBuffer()
    ensures ReportLayout(0x37).Some?
    ensures ReportLayout(0x37).value.ext == Some(17)
    ensures LayoutEnd(ReportLayout(0x37).value) == 23 > DeclaredReceiveBuffer
  {
  }

  /** Every layout is packed and fits the 23-byte report buffer; all but
      report 0x37 also fit the declared 21 bytes. */
  lemma LayoutsFitReportBuffer(id: Byte)
    requires ReportLayout(id).Some?
    ensures Packed(ReportLayout(id).value)
    ensures LayoutEnd(ReportLayout(id).value) <= ReportBuffer
    ensures id != 0x37 ==> LayoutEnd(ReportLayout(id).value) <= DeclaredReceiveBuffer
  {
  }

  /* ---------------------------------------------------------------- */
  /* Decoded device state                                               */
  /* ---------------------------------------------------------------- */

  datatype CoreState = CoreState(
    battery: int,             // raw battery level
    extension: Extension,
    buttons: bv32,            // bit field indexed by ButtonIndex
    rawAccel: seq<bv16>,      // 3 core axes, then 3 extension axes
    targets: seq<Target>      // 4 IR target slots
  )

  ghost predicate WellFormed(st: CoreState)
  {
    |st.rawAccel| == 6 && |st.targets| == 4
  }

  /** updateExtension: decodes the block; only a nunchuk's block is read. */
  function UpdateExtension(st: CoreState, block: seq<Byte>, readAccelerometers: bool): (r: CoreState)
    requires WellFormed(st) && |block| == 6
    ensures WellFormed(r)
    ensures st.extension != Nunchuk ==> r == st
    ensures r.extension == st.extension && r.targets == st.targets && r.battery == st.battery
    ensures st.extension == Nunchuk ==> r.buttons == NunchukButtons(st.buttons, Deobfuscate(block[5]))
    ensures r.rawAccel[..3] == st.rawAccel[..3]
    ensures st.extension == Nunchuk && readAccelerometers ==>
      r.rawAccel[3..] == ExtensionAccelerometers(DecodeExtensionBlock(block))
    ensures !(st.extension == Nunchuk && readAccelerometers) ==> r.rawAccel == st.rawAccel
  {
    var ext := DecodeExtensionBlock(block);
    if st.extension == Nunchuk then
      var buttons := NunchukButtons(st.buttons, ext[5]);
      var accel := if readAccelerometers then st.rawAccel[..3] + ExtensionAccelerometers(ext) else st.rawAccel;
      st.(buttons := buttons, rawAccel := accel)
    else
      st
  }

  /** The IR part of a data report, when its layout has one. */
  function DecodeTargets(targets: seq<Target>, l: Layout, buf: seq<Byte>): (r: seq<Target>)
    requires |targets| == 4 && |buf| == ReportBuffer
    requires l.ir.Some? ==> l.ir.value.1 + IRBytes(l.ir.value.0) <= |buf|
    ensures |r| == 4
    ensures l.ir.None? ==> r == targets
    ensures l.ir.Some? && l.ir.value.0 == BasicIR ==> r == IRBasic(buf[l.ir.value.1..l.ir.value.1 + 10], targets)
    ensures l.ir.Some? && l.ir.value.0 == ExtendedIR ==> r == IRExtended(buf[l.ir.value.1..l.ir.value.1 + 12], targets)
  {
    if l.ir.None? then targets
    else
      var (fmt, off) := l.ir.value;
      if fmt == BasicIR then IRBasic(buf[off..off + 10], targets)
      else IRExtended(buf[off..off + 12], targets)
  }

  /** The nunchuk bits never touch the core button bits. */
  lemma NunchukButtonsKeepCore(buttons: bv32, ext5: Byte)
    ensures NunchukButtons(buttons, ext5) & 0x7ff == buttons & 0x7ff
  {
  }

  lemma CoreButtonsWithinMask(b0: Byte, b1: Byte)
    ensures CoreButtons(b0, b1) & 0x7ff == CoreButtons(b0, b1)
  {
  }

  /** The button, accelerometer and IR fields of a report laid out as l. */
  function DecodeCore(st: CoreState, l: Layout, buf: seq<Byte>): (r: CoreState)
    requires WellFormed(st) && |buf| == ReportBuffer
    requires l.accel.Some? ==> l.accel.value == 4
    requires l.ir.Some? ==> l.ir.value.1 + IRBytes(l.ir.value.0) <= |buf|
    ensures WellFormed(r)
    ensures r.extension == st.extension && r.battery == st.battery
    ensures r.buttons == CoreButtons(buf[2], buf[3])
    ensures l.accel.None? ==> r.rawAccel[..3] == st.rawAccel[..3]
    ensures l.accel.Some? ==> r.rawAccel[..3] == CoreAccelerometers(buf[2], buf[3], buf[4..7])
    ensures r.rawAccel[3..] == st.rawAccel[3..]
    ensures r.targets == DecodeTargets(st.targets, l, buf)
  {
    var accel := if l.accel.Some? then CoreAccelerometers(buf[2], buf[3], buf[4..7]) + st.rawAccel[3..] else st.rawAccel;
    st.(buttons := CoreButtons(buf[2], buf[3]), rawAccel := accel, targets := DecodeTargets(st.targets, l, buf))
  }

  /** Decodes all fields of a report laid out as l: the extension block is
      read last, on top of the core fields. */
  function DecodeFields(st: CoreState, l: Layout, buf: seq<Byte>, readAccelerometers: bool): (r: CoreState)
    requires WellFormed(st) && |buf| == ReportBuffer
    requires l.accel.Some? ==> l.accel.value == 4
    requires l.ir.Some? ==> l.ir.value.1 + IRBytes(l.ir.value.0) <= |buf|
    requires l.ext.Some? ==> l.ext.value + ExtensionBytes <= |buf|
    ensures WellFormed(r)
    ensures r.extension == st.extension && r.battery == st.battery
    ensures r.targets == DecodeTargets(st.targets, l, buf)
  {
    var s := DecodeCore(st, l, buf);
    if l.ext.Some? then UpdateExtension(s, buf[l.ext.value..l.ext.value + 6], readAccelerometers)
    else s
  }

  /** Without a nunchuk block the report carries only core fields; with
      one the core button bits still come from the button bytes. */
  lemma DecodeFieldsCore(st: CoreState, l: Layout, buf: seq<Byte>, readAccelerometers: bool)
    requires WellFormed(st) && |buf| == ReportBuffer
    requires l.accel.Some? ==> l.accel.value == 4
    requires l.ir.Some? ==> l.ir.value.1 + IRBytes(l.ir.value.0) <= |buf|
    requires l.ext.Some? ==> l.ext.value + ExtensionBytes <= |buf|
    ensures var r := DecodeFields(st, l, buf, readAccelerometers);
      && r.buttons & 0x7ff == CoreButtons(buf[2], buf[3])
      && r.rawAccel[..3] == DecodeCore(st, l, buf).rawAccel[..3]
      && (!(l.ext.Some? && st.extension == Nunchuk) ==> r == DecodeCore(st, l, buf))
  {
    var s := DecodeCore(st, l, buf);
    CoreButtonsWithinMask(buf[2], buf[3]);
    if l.ext.Some? {
      var block := buf[l.ext.value..l.ext.value + 6];
      NunchukButtonsKeepCore(s.buttons, Deobfuscate(block[5]));
    }
  }

  /** After a data report only buttons below the reported count can read
      as pressed: without a nunchuk the Z and C bits are clear. */
  lemma DecodedButtonsWithinCount(st: CoreState, l: Layout, buf: seq<Byte>, readAccelerometers: bool, b: Button)
    requires WellFormed(st) && |buf| == ReportBuffer
    requires l.accel.Some? ==> l.accel.value == 4
    requires l.ir.Some? ==> l.ir.value.1 + IRBytes(l.ir.value.0) <= |buf|
    requires l.ext.Some? ==> l.ext.value + ExtensionBytes <= |buf|
    ensures ButtonPressed(DecodeFields(st, l, buf, readAccelerometers).buttons, ButtonIndex(b)) ==>
      ButtonIndex(b) < NumButtons(st.extension)
  {
    DecodeFieldsCore(st, l, buf, readAccelerometers);
    if st.extension != Nunchuk && st.extension != ClassicController && (b == Z || b == C) {
      var r := DecodeFields(st, l, buf, readAccelerometers);
      assert r.buttons & 0x7ff == r.buttons by {
        assert r == DecodeCore(st, l, buf);
        CoreButtonsWithinMask(buf[2], buf[3]);
      }
    }
  }

  /** With a nunchuk block the nunchuk buttons come from decoded byte 5 and,
      when enabled, the nunchuk accelerometers from decoded bytes 2-5. */
  lemma DecodeFieldsNunchuk(st: CoreState, l: Layout, buf: seq<Byte>, readAccelerometers: bool)
    requires WellFormed(st) && |buf| == ReportBuffer
    requires l.accel.Some? ==> l.accel.value == 4
    requires l.ir.Some? ==> l.ir.value.1 + IRBytes(l.ir.value.0) <= |buf|
    requires l.ext.Some? ==> l.ext.value + ExtensionBytes <= |buf|
    ensures var r := DecodeFields(st, l, buf, readAccelerometers);
      && (l.ext.Some? && st.extension == Nunchuk ==>
            r.buttons == NunchukButtons(CoreButtons(buf[2], buf[3]), Deobfuscate(buf[l.ext.value + 5])))
      && (l.ext.Some? && st.extension == Nunchuk && readAccelerometers ==>
            r.rawAccel[3..] == ExtensionAccelerometers(DecodeExtensionBlock(buf[l.ext.value..l.ext.value + 6])))
      && (!(l.ext.Some? && st.extension == Nunchuk && readAccelerometers) ==> r.rawAccel[3..] == st.rawAccel[3..])
  {
  }

  /** The integer part of a status report without an extension present:
      the battery level is stored, the extension type becomes none and the
      button field is masked with 0xffff. */
  function StatusWithoutExtension(st: CoreState, packet: seq<Byte>): (r: CoreState)
    requires WellFormed(st) && |packet| >= 8
    ensures WellFormed(r)
    ensures r.battery == packet[7] as int && r.extension == NoExtension
    ensures r.buttons == st.buttons & 0xffff
    ensures r.rawAccel == st.rawAccel && r.targets == st.targets
  {
    st.(battery := packet[7] as int, buttons := st.buttons & 0xffff, extension := NoExtension)
  }

  /** The mask 0xffff keeps bits 11 and 12, so a nunchuk button held when
      the extension is unplugged still reads as pressed until the next
      button report. */
  lemma StatusResetKeepsNunchukButtons(st: CoreState, packet: seq<Byte>)
    requires WellFormed(st) && |packet| >= 8
    ensures ButtonPressed(StatusWithoutExtension(st, packet).buttons, ButtonIndex(Z)) == ButtonPressed(st.buttons, 11)
    ensures ButtonPressed(StatusWithoutExtension(st, packet).buttons, ButtonIndex(C)) == ButtonPressed(st.buttons, 12)
  {
  }

  /** The extension type code of a type-query reply: bytes 7 and 8, big-endian. */
  function TypeCode(reply: seq<Byte>): (code: nat)
    requires |reply| >= 9
    ensures code < TwoTo16
    ensures code / 256 == reply[7] as int && code % 256 == reply[8] as int
  {
    reply[7] as int * 256 + reply[8] as int
  }

  /** The integer part of a status report with an extension present: the
      battery level is stored and the extension type is taken from bytes 7-8
      of the reply to the type query. */
  function StatusWithExtension(st: CoreState, packet: seq<Byte>, typeReply: seq<Byte>): (r: CoreState)
    requires WellFormed(st) && |packet| >= 8 && |typeReply| >= 9
    ensures WellFormed(r)
    ensures r.battery == packet[7] as int
    ensures r.extension == ExtensionFromCode(typeReply[7] as int * 256 + typeReply[8] as int, st.extension)
    ensures r.buttons == st.buttons && r.rawAccel == st.rawAccel && r.targets == st.targets
  {
    st.(battery := packet[7] as int,
        extension := ExtensionFromCode(TypeCode(typeReply), st.extension))
  }
}

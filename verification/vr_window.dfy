/** The integer helpers of the VR window: the window-type text codec, the
    interleave pattern and its polygon stipples, the eye-index offset of
    interleaved stereo, the autostereoscopic tile grid and the frame-rate
    text. */
module VRWindow {
  import opened Wrappers

  /* ---------------------------------------------------------------- */
  /* Window-type codec                                                  */
  /* ---------------------------------------------------------------- */

  datatype WindowType =
    | Mono | LeftEye | RightEye | QuadbufferStereo | AnaglyphicStereo
    | SplitViewportStereo | InterleavedViewportStereo | AutostereoscopicStereo

  /** The decoder's failure: the text names no window type. */
  datatype DecodingError = DecodingError(text: string)

  function Encode(t: WindowType): (s: string)
    ensures |s| >= 4
  {
    match t
    case Mono => "Mono"
    case LeftEye => "LeftEye"
    case RightEye => "RightEye"
    case QuadbufferStereo => "QuadbufferStereo"
    case AnaglyphicStereo => "AnaglyphicStereo"
    case SplitViewportStereo => "SplitViewportStereo"
    case InterleavedViewportStereo => "InterleavedViewportStereo"
    case AutostereoscopicStereo => "AutoStereoscopicStereo"
  }

  /** Lower-casing of the C locale: only 'A'..'Z' change. */
  function Fold(c: char): (d: char)
    ensures 'A' <= c <= 'Z' ==> d as int == c as int + 32
    ensures !('A' <= c <= 'Z') ==> d == c
  {
    if 'A' <= c <= 'Z' then (c as int + 32) as char else c
  }

  /** `strncasecmp(s, lit, n) == 0` on a text of at least n characters. */
  predicate MatchesAt(s: string, lit: string, n: nat)
    requires n <= |lit|
  {
    |s| >= n && forall i :: 0 <= i < n ==> Fold(s[i]) == Fold(lit[i])
  }

  /** One row of the decoder's cascade: the literal, how many characters
      are compared and consumed, and the type it stands for. */
  datatype Row = Row(literal: string, count: nat, result: WindowType)

  ghost predicate WellFormedTable(table: seq<Row>)
  {
    forall j :: 0 <= j < |table| ==> table[j].count <= |table[j].literal|
  }

  /** The cascade in the order the decoder tries it; the split-viewport
      row compares and consumes 18 of its 19 characters. */
  const TableAsWritten: seq<Row> := [
    Row("Mono", 4, Mono),
    Row("LeftEye", 7, LeftEye),
    Row("RightEye", 8, RightEye),
    Row("QuadbufferStereo", 16, QuadbufferStereo),
    Row("AnaglyphicStereo", 16, AnaglyphicStereo),
    Row("SplitViewportStereo", 18, SplitViewportStereo),
    Row("InterleavedViewportStereo", 25, InterleavedViewportStereo),
    Row("AutoStereoscopicStereo", 22, AutostereoscopicStereo)]

  /** The same cascade with every row comparing its whole literal. */
  const Table: seq<Row> := [
    Row("Mono", 4, Mono),
    Row("LeftEye", 7, LeftEye),
    Row("RightEye", 8, RightEye),
    Row("QuadbufferStereo", 16, QuadbufferStereo),
    Row("AnaglyphicStereo", 16, AnaglyphicStereo),
    Row("SplitViewportStereo", 19, SplitViewportStereo),
    Row("InterleavedViewportStereo", 25, InterleavedViewportStereo),
    Row("AutoStereoscopicStereo", 22, AutostereoscopicStereo)]

  /** The first row from position j on whose literal starts the text
      (ignoring case) decides the type and how much is consumed; when none
      does, decoding fails. */
  function DecodeWith(table: seq<Row>, s: string, j: nat): (r: Result<(WindowType, nat), DecodingError>)
    requires WellFormedTable(table) && j <= |table|
    ensures r.Failure? <==> forall k :: j <= k < |table| ==> !MatchesAt(s, table[k].literal, table[k].count)
    ensures r.Success? ==> exists k :: (
      && j <= k < |table| && MatchesAt(s, table[k].literal, table[k].count)
      && (forall m :: j <= m < k ==> !MatchesAt(s, table[m].literal, table[m].count))
      && r.value == (table[k].result, table[k].count))
    decreases |table| - j
  {
    if j == |table| then Failure(DecodingError(s))
    else if MatchesAt(s, table[j].literal, table[j].count) then Success((table[j].result, table[j].count))
    else DecodeWith(table, s, j + 1)
  }

  /** The decoder as written: the type and the number of characters it
      consumed (decodeEnd - start). It succeeds iff the text starts with
      the compared part of some type's name, and then consumes exactly
      that part. */
  function DecodeAsWritten(s: string): (r: Result<(WindowType, nat), DecodingError>)
    ensures r.Success? ==> r.value.1 == Compared(true, r.value.0) && MatchesAt(s, Encode(r.value.0), r.value.1)
    ensures r.Failure? <==> forall t: WindowType :: !MatchesAt(s, Encode(t), Compared(true, t))
  {
    DecodeMeaning(true, s);
    DecodeWith(TableAsWritten, s, 0)
  }

  /** The decoder with the split-viewport row consuming all 19 characters:
      it succeeds iff the text starts with some type's whole name, and then
      consumes exactly that name. */
  function Decode(s: string): (r: Result<(WindowType, nat), DecodingError>)
    ensures r.Success? ==> r.value.1 == |Encode(r.value.0)| && MatchesAt(s, Encode(r.value.0), r.value.1)
    ensures r.Failure? <==> forall t: WindowType :: !MatchesAt(s, Encode(t), |Encode(t)|)
  {
    DecodeMeaning(false, s);
    DecodeWith(Table, s, 0)
  }

  /** The cascade as written or corrected. */
  function Cascade(asWritten: bool): (table: seq<Row>)
  {
    if asWritten then TableAsWritten else Table
  }

  /** How many characters of a type's name the cascade compares: the whole
      name, except 18 of the 19 for the split-viewport row as written. */
  function Compared(asWritten: bool, t: WindowType): (n: nat)
    ensures n <= |Encode(t)|
  {
    if asWritten && t == SplitViewportStereo then 18 else |Encode(t)|
  }

  /** Row j of either cascade stands for the same type, holds its name,
      and compares the part of it given by Compared. */
  lemma CascadeRows(asWritten: bool, j: nat)
    requires j < |Table|
    ensures |Cascade(asWritten)| == |Table| && Cascade(asWritten)[j].result == Table[j].result
    ensures Cascade(asWritten)[j].literal == Encode(Table[j].result)
    ensures Cascade(asWritten)[j].count == Compared(asWritten, Table[j].result)
  {
    TableRows(j);
  }

  /** What either cascade decides, in terms of the type names: success
      means the compared part of the decided type's name starts the text,
      and the cascade fails iff no type's compared part does. */
  lemma DecodeMeaning(asWritten: bool, s: string)
    ensures WellFormedTable(Cascade(asWritten))
    ensures var r := DecodeWith(Cascade(asWritten), s, 0);
      && (r.Success? ==> r.value.1 == Compared(asWritten, r.value.0) && MatchesAt(s, Encode(r.value.0), r.value.1))
      && (r.Failure? <==> forall t: WindowType :: !MatchesAt(s, Encode(t), Compared(asWritten, t)))
  {
    var table := Cascade(asWritten);
    forall j | 0 <= j < |table|
      ensures table[j].count <= |table[j].literal|
    {
      CascadeRows(asWritten, j);
    }
    var r := DecodeWith(table, s, 0);
    if r.Success? {
      var k :| 0 <= k < |table| && MatchesAt(s, table[k].literal, table[k].count) && r.value == (table[k].result, table[k].count);
      CascadeRows(asWritten, k);
      var t := Table[k].result;
      assert !(forall u: WindowType :: !MatchesAt(s, Encode(u), Compared(asWritten, u))) by {
        assert MatchesAt(s, Encode(t), Compared(asWritten, t));
      }
    } else {
      forall t: WindowType
        ensures !MatchesAt(s, Encode(t), Compared(asWritten, t))
      {
        var j := RowIndex(t);
        CascadeRows(asWritten, j);
        assert !MatchesAt(s, table[j].literal, table[j].count);
      }
    }
  }

  /** The first two characters, lower-cased, tell the literals apart. */
  function Key(t: WindowType): (k: (char, char))
  {
    var e := Encode(t);
    (Fold(e[0]), Fold(e[1]))
  }

  lemma KeysDistinct(t: WindowType, u: WindowType)
    requires t != u
    ensures Key(t) != Key(u)
  {
  }

  /** The row of the table for a type. */
  function RowIndex(t: WindowType): (j: nat)
    ensures j < |Table| && Table[j].result == t
  {
    match t
    case Mono => 0
    case LeftEye => 1
    case RightEye => 2
    case QuadbufferStereo => 3
    case AnaglyphicStereo => 4
    case SplitViewportStereo => 5
    case InterleavedViewportStereo => 6
    case AutostereoscopicStereo => 7
  }

  lemma TableRows(j: nat)
    requires j < |Table|
    ensures Table[j].literal == Encode(Table[j].result) && Table[j].count == |Table[j].literal|
    ensures forall m :: 0 <= m < |Table| && Table[m].result == Table[j].result ==> m == j
  {
  }

  /** Decoding the encoding of a type, followed by anything, yields that
      type and consumes exactly the encoding. */
  lemma DecodeEncode(t: WindowType, rest: string)
    ensures Decode(Encode(t) + rest) == Success((t, |Encode(t)|))
  {
    var s := Encode(t) + rest;
    var j := RowIndex(t);
    TableRows(j);
    assert MatchesAt(s, Table[j].literal, Table[j].count);
    forall m | 0 <= m < |Table| && m != j
      ensures !MatchesAt(s, Table[m].literal, Table[m].count)
    {
      TableRows(m);
      KeysDistinct(Table[m].result, t);
      assert s[0] == Encode(t)[0] && s[1] == Encode(t)[1];
    }
  }

  /** Prefix matching: "MonoX" decodes to Mono, consuming four characters. */
  lemma TrailingTextIsNotConsumed()
    ensures Decode("MonoX") == Success((Mono, 4))
    ensures Decode("mono") == Success((Mono, 4))
  {
    DecodeEncode(Mono, "X");
    assert "MonoX" == Encode(Mono) + "X";
    assert MatchesAt("mono", "Mono", 4);
  }

  /** Text that no literal starts fails to decode. */
  lemma UnknownTypeFails()
    ensures Decode("Stereo").Failure?
  {
    forall j | 0 <= j < |Table| && j != 5
      ensures !MatchesAt("Stereo", Table[j].literal, Table[j].count)
    {
      FirstCharDiffers("Stereo", Table[j].literal, Table[j].count);
    }
    assert !MatchesAt("Stereo", Table[5].literal, Table[5].count) by {
      assert |"Stereo"| < Table[5].count;
    }
  }

  lemma FirstCharDiffers(s: string, lit: string, n: nat)
    requires 1 <= n <= |lit| && |s| >= 1 && Fold(s[0]) != Fold(lit[0])
    ensures !MatchesAt(s, lit, n)
  {
  }

  /** The cascade stops at the first row that matches. */
  lemma {:induction false} DecodeWithFirst(table: seq<Row>, s: string, j: nat, k: nat)
    requires WellFormedTable(table) && j <= k < |table|
    requires forall m :: j <= m < k ==> !MatchesAt(s, table[m].literal, table[m].count)
    requires MatchesAt(s, table[k].literal, table[k].count)
    ensures DecodeWith(table, s, j) == Success((table[k].result, table[k].count))
    decreases k - j
  {
    if j < k {
      DecodeWithFirst(table, s, j + 1, k);
    }
  }

  /** The first five literals all differ from "SplitViewport..." in their
      first character. */
  lemma NotBeforeSplitViewport(s: string, table: seq<Row>)
    requires |s| >= 1 && s[0] == 'S' && |table| >= 5 && WellFormedTable(table)
    requires table[..5] == Table[..5]
    ensures forall m :: 0 <= m < 5 ==> !MatchesAt(s, table[m].literal, table[m].count)
  {
    forall m | 0 <= m < 5
      ensures !MatchesAt(s, table[m].literal, table[m].count)
    {
      assert table[m] == Table[m];
      FirstCharDiffers(s, table[m].literal, table[m].count);
    }
  }

  /** As written, "SplitViewportStereo" decodes but its final character
      is left unconsumed. */
  lemma SplitViewportStereoFullAsWritten()
    ensures DecodeAsWritten("SplitViewportStereo") == Success((SplitViewportStereo, 18))
    ensures |Encode(SplitViewportStereo)| == 19
  {
    var full := "SplitViewportStereo";
    assert TableAsWritten[..5] == Table[..5];
    NotBeforeSplitViewport(full, TableAsWritten);
    assert MatchesAt(full, TableAsWritten[5].literal, TableAsWritten[5].count);
    DecodeWithFirst(TableAsWritten, full, 0, 5);
  }

  /** As written, the truncated "SplitViewportStere" is accepted. */
  lemma SplitViewportStereoCutAsWritten()
    ensures DecodeAsWritten("SplitViewportStere") == Success((SplitViewportStereo, 18))
  {
    var cut := "SplitViewportStere";
    assert TableAsWritten[..5] == Table[..5];
    NotBeforeSplitViewport(cut, TableAsWritten);
    assert MatchesAt(cut, TableAsWritten[5].literal, TableAsWritten[5].count);
    DecodeWithFirst(TableAsWritten, cut, 0, 5);
  }

  /** With the whole literal compared, the truncated text is rejected. */
  lemma SplitViewportStereoCutRejected()
    ensures Decode("SplitViewportStere").Failure?
  {
    var cut := "SplitViewportStere";
    NotBeforeSplitViewport(cut, Table);
    forall j | 5 <= j < 8
      ensures !MatchesAt(cut, Table[j].literal, Table[j].count)
    {
    }
  }

  /** As written, the split-viewport type decodes but leaves its final
      character unconsumed, so "SplitViewportStereo" is not decoded in
      full, while the truncated "SplitViewportStere" is accepted; the
      corrected table rejects the truncated text. */
  lemma SplitViewportStereoShortEnd()
    ensures DecodeAsWritten("SplitViewportStereo") == Success((SplitViewportStereo, 18))
    ensures |Encode(SplitViewportStereo)| == 19
    ensures DecodeAsWritten("SplitViewportStere") == Success((SplitViewportStereo, 18))
    ensures Decode("SplitViewportStere").Failure?
  {
    SplitViewportStereoFullAsWritten();
    SplitViewportStereoCutAsWritten();
    SplitViewportStereoCutRejected();
  }

  /* ---------------------------------------------------------------- */
  /* Interleave pattern and stipples                                    */
  /* ---------------------------------------------------------------- */

  /** Upper-casing of the C locale. */
  function Upper(c: char): (d: char)
    ensures 'a' <= c <= 'z' ==> d as int == c as int - 32
    ensures !('a' <= c <= 'z') ==> d == c
  {
    if 'a' <= c <= 'z' then (c as int - 32) as char else c
  }

  /** patRight[y][x]: whether pixel parity (x, y) shows the right eye. */
  datatype Pattern = Pattern(rows: seq<seq<bool>>)

  ghost predicate IsPattern(p: Pattern)
  {
    |p.rows| == 2 && |p.rows[0]| == 2 && |p.rows[1]| == 2
  }

  /** The default interleave pattern text. */
  const DefaultPattern: string := "LRRL"

  /** The pattern text is valid iff it has four characters, each 'L' or
      'R' in either case; character y*2+x says which eye pixel parity
      (x, y) shows. */
  function ParsePattern(text: string): (r: Result<Pattern, string>)
    ensures r.Success? <==> |text| == 4 && forall i :: 0 <= i < 4 ==> Upper(text[i]) in {'L', 'R'}
    ensures r.Success? ==> (
      && IsPattern(r.value)
      && forall y, x :: 0 <= y < 2 && 0 <= x < 2 ==> (r.value.rows[y][x] <==> Upper(text[y * 2 + x]) == 'R'))
  {
    if |text| == 4 && forall i :: 0 <= i < 4 ==> Upper(text[i]) in {'L', 'R'} then
      Success(Pattern([[Upper(text[0]) == 'R', Upper(text[1]) == 'R'],
                       [Upper(text[2]) == 'R', Upper(text[3]) == 'R']]))
    else Failure(text)
  }

  /** Bit k of a byte. */
  predicate Bit(b: bv8, k: nat)
    requires k < 8
  {
    (b >> k) & 1 == 1
  }

  /** A byte whose even bits are `even` and whose odd bits are `odd`. */
  function AlternatingByte(even: bool, odd: bool): (b: bv8)
  {
    (if even then 0x55 else 0) | (if odd then 0xaa else 0)
  }

  lemma AlternatingByteBits(even: bool, odd: bool, k: nat)
    requires k < 8
    ensures Bit(AlternatingByte(even, odd), k) <==> (if k % 2 == 0 then even else odd)
  {
    var b := AlternatingByte(even, odd);
    if k == 0 { assert Bit(b, 0) <==> even; }
    else if k == 1 { assert Bit(b, 1) <==> odd; }
    else if k == 2 { assert Bit(b, 2) <==> even; }
    else if k == 3 { assert Bit(b, 3) <==> odd; }
    else if k == 4 { assert Bit(b, 4) <==> even; }
    else if k == 5 { assert Bit(b, 5) <==> odd; }
    else if k == 6 { assert Bit(b, 6) <==> even; }
    else { assert Bit(b, 7) <==> odd; }
  }

  /** The 32x32 polygon stipple for window offset (xoff, yoff): 128 bytes,
      four per row. Pixel x of a row lies in byte x/8 at bit x%8, and every
      byte of a row starts at an even pixel, so a row's bytes are equal. */
  function Stipple(p: Pattern, yoff: nat, xoff: nat): (s: seq<bv8>)
    requires IsPattern(p) && yoff < 2 && xoff < 2
    ensures |s| == 128
  {
    seq(128, i requires 0 <= i < 128 =>
      var row := p.rows[(i / 4 + yoff) % 2];
      AlternatingByte(row[xoff % 2], row[(1 + xoff) % 2]))
  }

  /** Bit x%8 of byte y*4 + x/8 is set iff pattern cell
      [(y+yoff)%2][(x+xoff)%2] shows the right eye; since these positions
      cover all 1024 bits, every other bit is clear. */
  lemma StippleBits(p: Pattern, yoff: nat, xoff: nat, y: nat, x: nat)
    requires IsPattern(p) && yoff < 2 && xoff < 2 && y < 32 && x < 32
    ensures 0 <= y * 4 + x / 8 < 128
    ensures Bit(Stipple(p, yoff, xoff)[y * 4 + x / 8], x % 8) <==> p.rows[(y + yoff) % 2][(x + xoff) % 2]
  {
    var i := y * 4 + x / 8;
    assert i / 4 == y;
    var row := p.rows[(y + yoff) % 2];
    AlternatingByteBits(row[xoff % 2], row[(1 + xoff) % 2], x % 8);
    assert (x + xoff) % 2 == (x % 8 + xoff) % 2;
  }

  /** The four stipples, indexed yoff*2 + xoff. */
  function StipplePatterns(p: Pattern): (ss: seq<seq<bv8>>)
    requires IsPattern(p)
    ensures |ss| == 4
    ensures forall yoff, xoff :: 0 <= yoff < 2 && 0 <= xoff < 2 ==> ss[yoff * 2 + xoff] == Stipple(p, yoff, xoff)
  {
    [Stipple(p, 0, 0), Stipple(p, 0, 1), Stipple(p, 1, 0), Stipple(p, 1, 1)]
  }

  /* ---------------------------------------------------------------- */
  /* Eye-index offset                                                   */
  /* ---------------------------------------------------------------- */

  function Abs(a: int): nat
  {
    if a < 0 then -a else a
  }

  /** C's `%`: the remainder takes the sign of the dividend, and its size
      is the remainder of the sizes. */
  function CRem(a: int, b: int): (r: int)
    requires b != 0
    ensures a >= 0 ==> r == a % Abs(b)
    ensures a < 0 ==> r == -((-a) % Abs(b))
    ensures -(Abs(b) as int) < r < Abs(b)
  {
    if a >= 0 then a % Abs(b) else -((-a) % Abs(b))
  }

  /** C's `/`: the quotient truncated toward zero, so that quotient times
      divisor plus C's remainder gives back the dividend. */
  function CDiv(a: int, b: int): (q: int)
    requires b != 0
    ensures q * b + CRem(a, b) == a
    ensures a >= 0 && b > 0 ==> q == a / b
    ensures (a >= 0) == (b > 0) ==> q >= 0
    ensures (a >= 0) != (b > 0) ==> q <= 0
  {
    TruncatedDivision(a, b);
    if (a >= 0) == (b > 0) then Abs(a) / Abs(b) else -(Abs(a) / Abs(b))
  }

  /** The quotient of the sizes, signed by the operands' signs, times the
      divisor, plus C's remainder, is the dividend. */
  lemma TruncatedDivision(a: int, b: int)
    requires b != 0
    ensures var m := Abs(a) / Abs(b);
      (if (a >= 0) == (b > 0) then m else -m) * b + CRem(a, b) == a
  {
    var c := Abs(b);
    var m := Abs(a) / c;
    assert m * c + Abs(a) % c == Abs(a);
    if b < 0 {
      MulNegate(m, c);
      MulNegate(-m, c);
    }
  }

  lemma MulNegate(m: int, c: int)
    ensures m * -c == -(m * c)
  {
  }

  /** `(originY % 2) * 2 + (originX % 2)` with C's remainder. */
  function EyeIndexOffsetAsWritten(originX: int, originY: int): (o: int)
    ensures originX >= 0 && originY >= 0 ==> 0 <= o < 4
  {
    CRem(originY, 2) * 2 + CRem(originX, 2)
  }

  /** A window whose origin lies left of the screen (as multi-screen
      layouts allow) gets a negative offset, which then indexes the
      four-element stipple array. */
  lemma NegativeOriginIndexesOutside()
    ensures EyeIndexOffsetAsWritten(-1, 0) == -1
    ensures EyeIndexOffsetAsWritten(-1, -1) == -3
  {
  }

  /** The offset with the parities taken modulo 2: always a stipple index,
      and the stipple it selects is the one for the origin's pixel
      parity. */
  function EyeIndexOffset(originX: int, originY: int): (o: int)
    ensures 0 <= o < 4
    ensures o / 2 == originY % 2 && o % 2 == originX % 2
    ensures originX >= 0 && originY >= 0 ==> o == EyeIndexOffsetAsWritten(originX, originY)
  {
    (originY % 2) * 2 + originX % 2
  }

  /** The selected stipple places pattern cell [(y+oy)%2][(x+ox)%2] at
      window pixel (x, y): the pattern follows screen pixels wherever the
      window is. */
  lemma EyeStippleFollowsScreen(p: Pattern, originX: int, originY: int, y: nat, x: nat)
    requires IsPattern(p) && y < 32 && x < 32
    ensures var o := EyeIndexOffset(originX, originY);
      Bit(StipplePatterns(p)[o][y * 4 + x / 8], x % 8) <==> p.rows[(y + originY) % 2][(x + originX) % 2]
  {
    var o := EyeIndexOffset(originX, originY);
    var yoff: nat := originY % 2;
    var xoff: nat := originX % 2;
    assert o == yoff * 2 + xoff;
    assert StipplePatterns(p)[o] == Stipple(p, yoff, xoff);
    StippleBits(p, yoff, xoff, y, x);
    ParityShift(y, originY);
    ParityShift(x, originX);
  }

  /** Adding b or its parity gives the same parity. */
  lemma ParityShift(a: int, b: int)
    ensures (a + b % 2) % 2 == (a + b) % 2
  {
    var q := b / 2;
    assert b == 2 * q + b % 2;
    assert a + b == (a + b % 2) + 2 * q;
  }

  /* ---------------------------------------------------------------- */
  /* Autostereoscopic tiles                                             */
  /* ---------------------------------------------------------------- */

  /** asNumTiles[1] = (zones + columns - 1) / columns with C's division:
      for a positive column count, the rows needed to hold every view
      zone. Both counts come from the configuration as unchecked ints; a
      zero column count divides by zero (None). */
  function TileRows(zones: int, columns: int): (rows: Option<int>)
    ensures rows.None? <==> columns == 0
    ensures rows.Some? ==> rows.value == CDiv(zones + columns - 1, columns)
    ensures zones >= 0 && columns >= 1 ==>
      && rows.value >= 0
      && rows.value * columns >= zones
      && (rows.value == 0 <==> zones == 0)
      && (rows.value >= 1 ==> (rows.value - 1) * columns < zones)
  {
    if columns == 0 then None else Some(CDiv(zones + columns - 1, columns))
  }

  /** View zone z (0 <= z < zones) is drawn in row z / columns and column
      z % columns, with C's operators; with no columns the division fails
      (None). */
  function ZoneTile(z: nat, columns: int): (rc: Option<(int, int)>)
    ensures rc.None? <==> columns == 0
    ensures rc.Some? ==> 0 <= rc.value.1 < Abs(columns) && rc.value.0 * columns + rc.value.1 == z
    ensures rc.Some? && columns > 0 ==> rc.value.0 >= 0
    ensures rc.Some? && columns < 0 ==> rc.value.0 <= 0
  {
    if columns == 0 then None else Some((CDiv(z, columns), CRem(z, columns)))
  }

  lemma MulCancel(a: nat, b: nat, c: nat)
    requires c >= 1 && a * c < b * c
    ensures a < b
  {
    if a >= b {
      MulMono(c, b, a);
    }
  }

  /** With positive counts, every zone gets its own tile within the grid. */
  lemma ZoneTilesInGrid(zones: nat, columns: int, z: nat, w: nat)
    requires columns >= 1 && z < zones && w < zones
    ensures ZoneTile(z, columns).value.0 < TileRows(zones, columns).value
    ensures z != w ==> ZoneTile(z, columns) != ZoneTile(w, columns)
  {
    var (row, col) := ZoneTile(z, columns).value;
    var rows := TileRows(zones, columns).value;
    assert row * columns <= z < zones <= rows * columns;
    MulCancel(row, rows, columns);
  }

  /** The tile and quad size of one axis: the window size divided among
      the tiles with C's division, and the part of the window the tiles
      cover. Zero tiles divide by zero (None); a negative tile count gives
      a tile size of the opposite sign. */
  function TileSize(windowSize: nat, tiles: int): (tile: Option<int>)
    ensures tile.None? <==> tiles == 0
    ensures tile.Some? ==> 0 <= windowSize - tile.value * tiles < Abs(tiles)
    ensures tile.Some? && tiles > 0 ==> tile.value >= 0
    ensures tile.Some? && tiles < 0 ==> tile.value <= 0
  {
    if tiles == 0 then None else Some(CDiv(windowSize, tiles))
  }

  /** With no view zones, the row count is 0 and the tile height divides
      by zero. */
  lemma NoViewZonesDivideByZero(columns: int, windowHeight: nat)
    requires columns >= 1
    ensures TileRows(0, columns) == Some(0)
    ensures TileSize(windowHeight, TileRows(0, columns).value).None?
  {
  }

  /** A negative column count is accepted as well: four zones in -1
      columns give -2 rows, a negative tile height, and zone 1 in row -1,
      below the window. */
  lemma NegativeColumnsFlipTiles(windowHeight: nat)
    requires windowHeight >= 2
    ensures TileRows(4, -1) == Some(-2)
    ensures TileSize(windowHeight, -2).value < 0
    ensures ZoneTile(1, -1) == Some((-1, 0))
  {
  }

  /** The tile grid with the configuration checked: a grid exists iff there
      is at least one view zone and one column; then both tile counts are
      positive, so both tile sizes are defined and non-negative, and the
      grid holds every zone. */
  function CheckedTileGrid(zones: int, columns: int): (g: Option<(nat, nat)>)
    ensures g.Some? <==> zones >= 1 && columns >= 1
    ensures g.Some? ==> g.value.0 == columns && g.value.1 >= 1 && TileRows(zones, columns) == Some(g.value.1)
    ensures g.Some? ==> forall w: nat :: TileSize(w, g.value.0).Some? && TileSize(w, g.value.0).value >= 0
    ensures g.Some? ==> forall w: nat :: TileSize(w, g.value.1).Some? && TileSize(w, g.value.1).value >= 0
    ensures g.Some? ==> forall z: nat :: z < zones ==> ZoneTile(z, columns).value.0 < g.value.1
  {
    if zones >= 1 && columns >= 1 then
      var rows := TileRows(zones, columns).value;
      assert forall z: nat :: z < zones ==> ZoneTile(z, columns).value.0 < rows by {
        forall z: nat | z < zones
          ensures ZoneTile(z, columns).value.0 < rows
        {
          ZoneTilesInGrid(zones, columns, z, z);
        }
      }
      Some((columns, rows))
    else None
  }

  lemma MulMono(a: nat, b: nat, c: nat)
    requires b <= c
    ensures a * b <= a * c
  {
  }

  /** The viewport of tile i (0 <= i < tiles) on one axis lies inside the
      window. */
  lemma TileInsideWindow(windowSize: nat, tiles: int, i: nat)
    requires i < tiles
    ensures TileSize(windowSize, tiles).Some?
    ensures var t := TileSize(windowSize, tiles).value; t * i + t <= windowSize
  {
    var t: nat := TileSize(windowSize, tiles).value;
    MulMono(t, i + 1, tiles);
  }

  /* ---------------------------------------------------------------- */
  /* Frame-rate text                                                    */
  /* ---------------------------------------------------------------- */

  function DigitChar(d: nat): (c: char)
    requires d < 10
    ensures '0' <= c <= '9'
  {
    (48 + d) as char
  }

  /** The decimal digits of n, without leading zeros, "0" for zero. */
  function Decimal(n: nat): (s: string)
    ensures 1 <= |s|
    ensures forall i :: 0 <= i < |s| ==> '0' <= s[i] <= '9'
  {
    if n < 10 then [DigitChar(n)] else Decimal(n / 10) + [DigitChar(n % 10)]
  }

  function DecimalValue(s: string): (v: nat)
    requires forall i :: 0 <= i < |s| ==> '0' <= s[i] <= '9'
  {
    if |s| == 0 then 0 else 10 * DecimalValue(s[..|s| - 1]) + (s[|s| - 1] as int - 48)
  }

  /** The digits read back as a number give n. */
  lemma {:induction false} DecimalRoundTrip(n: nat)
    ensures DecimalValue(Decimal(n)) == n
  {
    var s := Decimal(n);
    if n >= 10 {
      DecimalRoundTrip(n / 10);
      assert s[..|s| - 1] == Decimal(n / 10);
    }
  }

  /** Numbers below 10^k have at most k digits. */
  lemma {:induction false} DecimalLength(n: nat, k: nat, bound: nat)
    requires k >= 1 && bound == Pow10(k) && n < bound
    ensures |Decimal(n)| <= k
    decreases k
  {
    if n >= 10 {
      assert k >= 2;
      DecimalLength(n / 10, k - 1, Pow10(k - 1));
    }
  }

  function Pow10(k: nat): (p: nat)
    ensures p >= 1
  {
    if k == 0 then 1 else 10 * Pow10(k - 1)
  }

  /** The fps display for the unsigned value n (ten times the frame rate,
      rounded): digits are written backwards from position 14 of a 20-byte
      buffer, the tenths digit, the point, then at least one integer digit
      while room is left and digits remain, then " fps". */
  method FpsText(n: nat) returns (s: string)
    requires n < 0x1_0000_0000
    ensures s == Decimal(n / 10) + "." + [DigitChar(n % 10)] + " fps"
  {
    var tenths := [DigitChar(n % 10)];
    var rest: nat := n / 10;
    DecimalLength(n / 10, 10, Pow10(10));
    var digits: string := [DigitChar(rest % 10)];
    rest := rest / 10;
    while 13 - |digits| > 0 && rest != 0
      invariant 1 <= |digits| <= 10
      invariant rest == 0 ==> digits == Decimal(n / 10)
      invariant rest != 0 ==> Decimal(rest) + digits == Decimal(n / 10)
      decreases rest
    {
      assert Decimal(rest) == (if rest < 10 then [] else Decimal(rest / 10)) + [DigitChar(rest % 10)];
      digits := [DigitChar(rest % 10)] + digits;
      rest := rest / 10;
    }
    s := digits + "." + tenths + " fps";
  }
}

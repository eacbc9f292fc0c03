/** Playback of recorded input-device data: the file header with the
    device layouts, the per-frame records read in device order, and the
    `done` and `firstFrame` flags. The file is a sequence of values read
    one at a time; floating-point values (poses, valuators, time stamps)
    are opaque, and timing, sound and movie capture are left out. */
module Playback {
  import opened Wrappers

  /** One value read from the data file: an int, a floating-point number,
      or a 40-byte device name. */
  datatype Value<F> = IntValue(i: int) | RealValue(r: F) | NameValue(name: string)

  /** trackType value meaning "not tracked". */
  const TrackNone: int := 0

  /** What the update loop needs of a device: whether a pose is recorded,
      and how many buttons and valuators follow. */
  datatype Layout = Layout(tracked: bool, numButtons: nat, numValuators: nat)

  /** The recorded state of one device: the pose (3 translation then 4
      quaternion scalars; empty until a tracked frame has been read), the
      button states and the valuator values. */
  datatype DeviceState<F> = DeviceState(pose: seq<Value<F>>, buttons: seq<Value<F>>, valuators: seq<Value<F>>)

  /** How many values one device contributes to a frame. */
  function RecordLength(l: Layout): nat
  {
    (if l.tracked then 7 else 0) + l.numButtons + l.numValuators
  }

  /** The values of all devices of a frame, in device order. */
  function FrameLength(ls: seq<Layout>): (n: nat)
    decreases |ls|
  {
    if |ls| == 0 then 0 else RecordLength(ls[0]) + FrameLength(ls[1..])
  }

  /** The per-device record: pose (only if tracked), buttons, valuators. */
  function ReadDevice<F>(l: Layout, prev: DeviceState<F>, s: seq<Value<F>>): (r: Option<(DeviceState<F>, seq<Value<F>>)>)
    ensures r.Some? <==> |s| >= RecordLength(l)
    ensures r.Some? ==> r.value.1 == s[RecordLength(l)..]
    ensures r.Some? ==> |r.value.0.buttons| == l.numButtons && |r.value.0.valuators| == l.numValuators
    ensures r.Some? && !l.tracked ==> r.value.0.pose == prev.pose
  {
    if |s| < RecordLength(l) then None
    else
      var p := if l.tracked then 7 else 0;
      var pose := if l.tracked then s[..7] else prev.pose;
      var buttons := s[p..p + l.numButtons];
      var valuators := s[p + l.numButtons..p + l.numButtons + l.numValuators];
      Some((DeviceState(pose, buttons, valuators), s[RecordLength(l)..]))
  }

  /** The record the recorder writes for one device. */
  function WriteDevice<F>(l: Layout, st: DeviceState<F>): (s: seq<Value<F>>)
    ensures Fits(l, st) ==> |s| == RecordLength(l)
  {
    (if l.tracked then st.pose else []) + st.buttons + st.valuators
  }

  ghost predicate Fits<F>(l: Layout, st: DeviceState<F>)
  {
    (l.tracked ==> |st.pose| == 7) && |st.buttons| == l.numButtons && |st.valuators| == l.numValuators
  }

  /** Reading back what was written gives the device state (an untracked
      device keeps its previous pose) and leaves the rest of the file. */
  lemma ReadWriteDevice<F>(l: Layout, st: DeviceState<F>, prev: DeviceState<F>, rest: seq<Value<F>>)
    requires Fits(l, st) && (!l.tracked ==> st.pose == prev.pose)
    ensures ReadDevice(l, prev, WriteDevice(l, st) + rest) == Some((st, rest))
  {
    var s := WriteDevice(l, st) + rest;
    var p := if l.tracked then 7 else 0;
    assert s[p..p + l.numButtons] == st.buttons;
    assert s[p + l.numButtons..p + l.numButtons + l.numValuators] == st.valuators;
    assert s[RecordLength(l)..] == rest;
    if l.tracked {
      assert s[..7] == st.pose;
    }
  }

  /** All devices of a frame, in index order. */
  function ReadDevices<F>(ls: seq<Layout>, prev: seq<DeviceState<F>>, s: seq<Value<F>>): (r: Option<(seq<DeviceState<F>>, seq<Value<F>>)>)
    requires |prev| == |ls|
    ensures r.Some? <==> |s| >= FrameLength(ls)
    ensures r.Some? ==> |r.value.0| == |ls| && r.value.1 == s[FrameLength(ls)..]
    decreases |ls|
  {
    if |ls| == 0 then Some(([], s))
    else
      match ReadDevice(ls[0], prev[0], s)
      case None => None
      case Some((d, s1)) =>
        match ReadDevices(ls[1..], prev[1..], s1)
        case None => None
        case Some((ds, s2)) => Some(([d] + ds, s2))
  }

  /** The frame the recorder writes: the device records in index order. */
  function WriteDevices<F>(ls: seq<Layout>, sts: seq<DeviceState<F>>): (s: seq<Value<F>>)
    requires |sts| == |ls|
    ensures (forall i :: 0 <= i < |ls| ==> Fits(ls[i], sts[i])) ==> |s| == FrameLength(ls)
    decreases |ls|
  {
    if |ls| == 0 then [] else WriteDevice(ls[0], sts[0]) + WriteDevices(ls[1..], sts[1..])
  }

  /** A written frame reads back as the same device states. */
  lemma {:induction false} ReadWriteDevices<F>(ls: seq<Layout>, sts: seq<DeviceState<F>>, prev: seq<DeviceState<F>>, rest: seq<Value<F>>)
    requires |sts| == |ls| && |prev| == |ls|
    requires forall i :: 0 <= i < |ls| ==> Fits(ls[i], sts[i]) && (!ls[i].tracked ==> sts[i].pose == prev[i].pose)
    ensures ReadDevices(ls, prev, WriteDevices(ls, sts) + rest) == Some((sts, rest))
    decreases |ls|
  {
    if |ls| > 0 {
      var tail := WriteDevices(ls[1..], sts[1..]) + rest;
      assert WriteDevices(ls, sts) + rest == WriteDevice(ls[0], sts[0]) + tail;
      ReadWriteDevice(ls[0], sts[0], prev[0], tail);
      forall i | 0 <= i < |ls| - 1
        ensures Fits(ls[1..][i], sts[1..][i]) && (!ls[1..][i].tracked ==> sts[1..][i].pose == prev[1..][i].pose)
      {
        assert ls[1..][i] == ls[i + 1] && sts[1..][i] == sts[i + 1] && prev[1..][i] == prev[i + 1];
      }
      ReadWriteDevices(ls[1..], sts[1..], prev[1..], rest);
      assert sts == [sts[0]] + sts[1..];
    }
  }

  /** The value kinds of a frame record, in read order, for the byte
      layout: per device 7 scalars if tracked, then ints, then doubles;
      finally the double time stamp of the next frame. */
  datatype Kind = IntKind | ScalarKind | DoubleKind

  function KindBytes(k: Kind, scalarBytes: nat): nat
  {
    match k
    case IntKind => 4
    case ScalarKind => scalarBytes
    case DoubleKind => 8
  }

  function Repeat(k: Kind, n: nat): (ks: seq<Kind>)
    ensures |ks| == n && forall i :: 0 <= i < n ==> ks[i] == k
  {
    if n == 0 then [] else [k] + Repeat(k, n - 1)
  }

  function RecordKinds(l: Layout): seq<Kind>
  {
    Repeat(ScalarKind, if l.tracked then 7 else 0) + Repeat(IntKind, l.numButtons) + Repeat(DoubleKind, l.numValuators)
  }

  function FrameKinds(ls: seq<Layout>): seq<Kind>
    decreases |ls|
  {
    if |ls| == 0 then [DoubleKind] else RecordKinds(ls[0]) + FrameKinds(ls[1..])
  }

  function Bytes(ks: seq<Kind>, scalarBytes: nat): nat
    decreases |ks|
  {
    if |ks| == 0 then 0 else KindBytes(ks[0], scalarBytes) + Bytes(ks[1..], scalarBytes)
  }

  lemma {:induction false} BytesAppend(a: seq<Kind>, b: seq<Kind>, scalarBytes: nat)
    ensures Bytes(a + b, scalarBytes) == Bytes(a, scalarBytes) + Bytes(b, scalarBytes)
    decreases |a|
  {
    if |a| > 0 {
      assert (a + b)[1..] == a[1..] + b;
      BytesAppend(a[1..], b, scalarBytes);
    } else {
      assert a + b == b;
    }
  }

  lemma {:induction false} BytesRepeat(k: Kind, n: nat, scalarBytes: nat)
    ensures Bytes(Repeat(k, n), scalarBytes) == n * KindBytes(k, scalarBytes)
  {
    if n > 0 {
      BytesRepeat(k, n - 1, scalarBytes);
    }
  }

  /** The size of a frame record on disk. */
  function FrameBytes(ls: seq<Layout>, scalarBytes: nat): nat
    decreases |ls|
  {
    if |ls| == 0 then 8
    else
      var l := ls[0];
      (if l.tracked then 7 * scalarBytes else 0) + 4 * l.numButtons + 8 * l.numValuators
        + FrameBytes(ls[1..], scalarBytes)
  }

  /** One device's part of the frame record: its kinds are its values, and
      they take 7 Scalars if tracked, 4 bytes per button and 8 per valuator. */
  lemma {:induction false} RecordLayout(l: Layout, scalarBytes: nat)
    ensures Bytes(RecordKinds(l), scalarBytes)
      == (if l.tracked then 7 * scalarBytes else 0) + 4 * l.numButtons + 8 * l.numValuators
    ensures |RecordKinds(l)| == RecordLength(l)
  {
    var a := Repeat(ScalarKind, if l.tracked then 7 else 0);
    var b := Repeat(IntKind, l.numButtons);
    var c := Repeat(DoubleKind, l.numValuators);
    BytesAppend(a + b, c, scalarBytes);
    BytesAppend(a, b, scalarBytes);
    BytesRepeat(ScalarKind, if l.tracked then 7 else 0, scalarBytes);
    BytesRepeat(IntKind, l.numButtons, scalarBytes);
    BytesRepeat(DoubleKind, l.numValuators, scalarBytes);
  }

  /** The read order accounts for every byte of the frame record, and one
      value is read per kind, the time stamp last. */
  lemma {:induction false} FrameLayout(ls: seq<Layout>, scalarBytes: nat)
    ensures Bytes(FrameKinds(ls), scalarBytes) == FrameBytes(ls, scalarBytes)
    ensures |FrameKinds(ls)| == FrameLength(ls) + 1
    ensures FrameKinds(ls)[|FrameKinds(ls)| - 1] == DoubleKind
    decreases |ls|
  {
    if |ls| > 0 {
      var head := RecordKinds(ls[0]);
      var tail := FrameKinds(ls[1..]);
      FrameLayout(ls[1..], scalarBytes);
      RecordLayout(ls[0], scalarBytes);
      BytesAppend(head, tail, scalarBytes);
      assert FrameKinds(ls) == head + tail;
      assert (head + tail)[|head + tail| - 1] == tail[|tail| - 1];
    }
  }

  /* ---------------------------------------------------------------- */
  /* The adapter                                                        */
  /* ---------------------------------------------------------------- */

  /** The adapter's state: the device layouts and states, the current and
      next time stamps (None is the "maximum" time after the end), the
      flags, and the unread rest of the file. */
  datatype Adapter<F> = Adapter(
    layouts: seq<Layout>,
    devices: seq<DeviceState<F>>,
    timeStamp: Option<F>,
    nextTimeStamp: Option<F>,
    firstFrame: bool,
    done: bool,
    file: seq<Value<F>>)

  ghost predicate ValidAdapter<F>(a: Adapter<F>)
  {
    |a.devices| == |a.layouts| && (a.done <==> a.nextTimeStamp.None?)
  }

  /** Reading failed: the file ended inside the header or a frame. Because
      the file is modelled as typed values, a header value or the next time
      stamp of the wrong kind fails as well; device records are taken as
      they come, whatever their kind. A recorded file never holds a value of
      the wrong kind, and the raw reads of the source would reinterpret the
      bytes instead. */
  datatype ReadError = ReadError

  /** Whether s starts with a well-formed device header: a 40-byte name,
      the track type, the button and valuator counts, and the 3-component
      ray direction. */
  predicate IsHeader<F>(s: seq<Value<F>>)
  {
    && |s| >= 7 && s[0].NameValue? && s[1].IntValue? && s[2].IntValue? && s[3].IntValue?
    && s[4].RealValue? && s[5].RealValue? && s[6].RealValue?
  }

  /** One device header. The device is tracked iff its track type is not
      TRACK_NONE; the update loop counts buttons and valuators with
      `i < count`, so a negative count reads as none. */
  function ReadHeader<F>(s: seq<Value<F>>): (r: Result<(Layout, seq<Value<F>>), ReadError>)
    ensures r.Success? <==> IsHeader(s)
    ensures r.Success? ==> r.value.1 == s[7..]
    ensures r.Success? ==> (r.value.0.tracked <==> s[1].i != TrackNone)
    ensures r.Success? ==> r.value.0.numButtons as int == (if s[2].i < 0 then 0 else s[2].i)
    ensures r.Success? ==> r.value.0.numValuators as int == (if s[3].i < 0 then 0 else s[3].i)
  {
    if |s| < 7 then Failure(ReadError)
    else match (s[0], s[1], s[2], s[3], s[4], s[5], s[6])
      case (NameValue(_), IntValue(trackType), IntValue(nb), IntValue(nv), RealValue(_), RealValue(_), RealValue(_)) =>
        var layout := Layout(trackType != TrackNone, if nb < 0 then 0 else nb, if nv < 0 then 0 else nv);
        Success((layout, s[7..]))
      case _ => Failure(ReadError)
  }

  /** The header values of a device with the given layout. */
  function HeaderValues<F>(name: string, l: Layout, ray: seq<F>): (s: seq<Value<F>>)
    requires |ray| == 3
    ensures |s| == 7
  {
    [NameValue(name), IntValue(if l.tracked then 1 else TrackNone), IntValue(l.numButtons), IntValue(l.numValuators),
     RealValue(ray[0]), RealValue(ray[1]), RealValue(ray[2])]
  }

  /** A written header reads back as its layout, and reading resumes right
      after it. */
  lemma {:induction false} ReadWriteHeader<F>(name: string, l: Layout, ray: seq<F>, rest: seq<Value<F>>)
    requires |ray| == 3
    ensures ReadHeader(HeaderValues(name, l, ray) + rest) == Success((l, rest))
  {
    var s := HeaderValues(name, l, ray) + rest;
    assert s[7..] == rest;
  }

  /** The values from the i-th header of a run of 7-value headers on;
      empty past the end. */
  function HeaderAt<F>(s: seq<Value<F>>, i: nat): (h: seq<Value<F>>)
    ensures 7 * i <= |s| ==> h == s[7 * i..]
  {
    if 7 * i <= |s| then s[7 * i..] else []
  }

  /** Header i + 1 of a run is header i of the run after the first. */
  lemma HeaderAtTail<F>(s: seq<Value<F>>, i: nat)
    requires |s| >= 7
    ensures HeaderAt(s, i + 1) == HeaderAt(s[7..], i)
  {
  }

  /** A run of n headers is well formed iff its first header is and the
      run of n - 1 after it is. */
  lemma {:induction false} HeadersCons<F>(s: seq<Value<F>>, n: nat)
    requires n >= 1
    ensures (|s| >= 7 * n && forall i: nat :: i < n ==> IsHeader(HeaderAt(s, i))) <==>
      (IsHeader(s) && |s[7..]| >= 7 * (n - 1) && forall i: nat :: i < n - 1 ==> IsHeader(HeaderAt(s[7..], i)))
  {
    assert HeaderAt(s, 0) == s;
    if |s| >= 7 {
      forall i: nat | i < n - 1
        ensures IsHeader(HeaderAt(s, i + 1)) == IsHeader(HeaderAt(s[7..], i))
      {
        HeaderAtTail(s, i);
      }
      if IsHeader(s) && |s[7..]| >= 7 * (n - 1) && forall i: nat :: i < n - 1 ==> IsHeader(HeaderAt(s[7..], i)) {
        forall i: nat | i < n
          ensures IsHeader(HeaderAt(s, i))
        {
          if i > 0 {
            assert IsHeader(HeaderAt(s[7..], i - 1));
          }
        }
      }
    }
  }

  /** The layouts of a run are the first header's layout followed by the
      layouts of the run after it. */
  lemma {:induction false} LayoutsCons<F>(s: seq<Value<F>>, n: nat, l: Layout, ls: seq<Layout>)
    requires n >= 1 && |ls| == n - 1 && |s| >= 7 && ReadHeader(s) == Success((l, s[7..]))
    requires forall i: nat :: i < n - 1 ==>
      ReadHeader(HeaderAt(s[7..], i)).Success? && ls[i] == ReadHeader(HeaderAt(s[7..], i)).value.0
    ensures forall i: nat :: i < n ==>
      ReadHeader(HeaderAt(s, i)).Success? && ([l] + ls)[i] == ReadHeader(HeaderAt(s, i)).value.0
  {
    forall i: nat | i < n
      ensures ReadHeader(HeaderAt(s, i)).Success? && ([l] + ls)[i] == ReadHeader(HeaderAt(s, i)).value.0
    {
      if i == 0 {
        assert HeaderAt(s, 0) == s;
      } else {
        LayoutAfterFirst(s, l, ls, i - 1);
      }
    }
  }

  /** Layout i + 1 of a run is layout i of the run after the first header. */
  lemma {:induction false} LayoutAfterFirst<F>(s: seq<Value<F>>, l: Layout, ls: seq<Layout>, i: nat)
    requires |s| >= 7 && i < |ls|
    requires ReadHeader(HeaderAt(s[7..], i)).Success? && ls[i] == ReadHeader(HeaderAt(s[7..], i)).value.0
    ensures ReadHeader(HeaderAt(s, i + 1)).Success? && ([l] + ls)[i + 1] == ReadHeader(HeaderAt(s, i + 1)).value.0
  {
    HeaderAtTail(s, i);
    assert ([l] + ls)[i + 1] == ls[i];
  }

  /** n device headers in a row: they read iff each of them is well formed,
      and layout i is the layout of header i. */
  function ReadHeaders<F>(n: nat, s: seq<Value<F>>): (r: Result<(seq<Layout>, seq<Value<F>>), ReadError>)
    ensures r.Success? <==> |s| >= 7 * n && forall i: nat :: i < n ==> IsHeader(HeaderAt(s, i))
    ensures r.Success? ==> |r.value.0| == n && r.value.1 == s[7 * n..]
    ensures r.Success? ==> forall i: nat :: i < n ==>
      ReadHeader(HeaderAt(s, i)).Success? && r.value.0[i] == ReadHeader(HeaderAt(s, i)).value.0
    decreases n
  {
    if n == 0 then Success(([], s))
    else
      HeadersCons(s, n);
      match ReadHeader(s)
      case Failure(e) => Failure(e)
      case Success((l, s1)) =>
        match ReadHeaders(n - 1, s1)
        case Failure(e) => Failure(e)
        case Success((ls, s2)) =>
          LayoutsCons(s, n, l, ls);
          Success(([l] + ls, s2))
  }

  /** The headers of a recording, one per device. */
  function HeadersValues<F>(names: seq<string>, ls: seq<Layout>, rays: seq<seq<F>>): (s: seq<Value<F>>)
    requires |names| == |ls| && |rays| == |ls|
    requires forall i :: 0 <= i < |rays| ==> |rays[i]| == 3
    ensures |s| == 7 * |ls|
    decreases |ls|
  {
    if |ls| == 0 then []
    else HeaderValues(names[0], ls[0], rays[0]) + HeadersValues(names[1..], ls[1..], rays[1..])
  }

  /** Written headers read back as their layouts, and reading resumes
      right after them. */
  lemma {:induction false} ReadWriteHeaders<F>(names: seq<string>, ls: seq<Layout>, rays: seq<seq<F>>, rest: seq<Value<F>>)
    requires |names| == |ls| && |rays| == |ls|
    requires forall i :: 0 <= i < |rays| ==> |rays[i]| == 3
    ensures ReadHeaders(|ls|, HeadersValues(names, ls, rays) + rest) == Success((ls, rest))
    decreases |ls|
  {
    if |ls| > 0 {
      var tail := HeadersValues(names[1..], ls[1..], rays[1..]) + rest;
      var head := HeaderValues(names[0], ls[0], rays[0]);
      var s := HeadersValues(names, ls, rays) + rest;
      assert HeadersValues(names, ls, rays) == head + HeadersValues(names[1..], ls[1..], rays[1..]);
      assert s == head + tail;
      ReadWriteHeader(names[0], ls[0], rays[0], tail);
      ReadWriteHeaders(names[1..], ls[1..], rays[1..], rest);
      ReadHeadersStep(|ls|, s, ls[0], tail, ls[1..], rest);
      assert ls == [ls[0]] + ls[1..];
    }
  }

  /** Reading n headers is reading one, then n - 1. */
  lemma {:induction false} ReadHeadersStep<F>(n: nat, s: seq<Value<F>>, l: Layout, s1: seq<Value<F>>, ls: seq<Layout>, s2: seq<Value<F>>)
    requires n >= 1
    requires ReadHeader(s) == Success((l, s1)) && ReadHeaders(n - 1, s1) == Success((ls, s2))
    ensures ReadHeaders(n, s) == Success(([l] + ls, s2))
  {
  }

  /** The constructor: the device count, the device headers, then the
      first frame's time stamp; a file that ends there is already done. */
  function Open<F>(file: seq<Value<F>>): (r: Result<Adapter<F>, ReadError>)
    ensures r.Success? ==> ValidAdapter(r.value) && r.value.firstFrame
    ensures r.Success? ==> |file| >= 1 && file[0].IntValue? && |r.value.layouts| == file[0].i
    ensures r.Success? <==>
      && |file| >= 1 && file[0].IntValue? && file[0].i >= 0
      && |file| >= 1 + 7 * file[0].i
      && (forall i: nat :: i < file[0].i ==> IsHeader(HeaderAt(file[1..], i)))
      && (|file| > 1 + 7 * file[0].i ==> file[1 + 7 * file[0].i].RealValue?)
    ensures r.Success? ==> forall i: nat :: i < |r.value.layouts| ==>
      ReadHeader(HeaderAt(file[1..], i)).Success? && r.value.layouts[i] == ReadHeader(HeaderAt(file[1..], i)).value.0
    ensures r.Success? ==> forall i :: 0 <= i < |r.value.devices| ==> r.value.devices[i] == DeviceState([], [], [])
    ensures r.Success? ==> r.value.timeStamp.None? && (r.value.done <==> |file| == 1 + 7 * |r.value.layouts|)
    ensures r.Success? && !r.value.done ==>
      var n := |r.value.layouts|;
      r.value.nextTimeStamp == Some(file[1 + 7 * n].r) && r.value.file == file[2 + 7 * n..]
  {
    if |file| == 0 || !file[0].IntValue? || file[0].i < 0 then Failure(ReadError)
    else
      var n := file[0].i;
      match ReadHeaders(n, file[1..])
      case Failure(e) => Failure(e)
      case Success((ls, rest)) =>
        var initial := seq(n, _ => DeviceState([], [], []));
        if |rest| == 0 then Success(Adapter(ls, initial, None, None, true, true, rest))
        else if !rest[0].RealValue? then Failure(ReadError)
        else Success(Adapter(ls, initial, None, Some(rest[0].r), true, false, rest[1..]))
  }

  /** A recording's start reads back: the device count, the headers and
      the first time stamp give the written layouts, with the time stamp
      as the next one and the first frame left to read. */
  lemma {:induction false} OpenReadsBack<F>(names: seq<string>, ls: seq<Layout>, rays: seq<seq<F>>, t: F, rest: seq<Value<F>>)
    requires |names| == |ls| && |rays| == |ls|
    requires forall i :: 0 <= i < |rays| ==> |rays[i]| == 3
    ensures var r := Open([IntValue(|ls|)] + HeadersValues(names, ls, rays) + [RealValue(t)] + rest);
      && r.Success? && r.value.layouts == ls && r.value.firstFrame && !r.value.done
      && r.value.nextTimeStamp == Some(t) && r.value.file == rest
  {
    var file := [IntValue(|ls|)] + HeadersValues(names, ls, rays) + [RealValue(t)] + rest;
    var after := [RealValue(t)] + rest;
    assert file[0] == IntValue(|ls|);
    assert file[1..] == HeadersValues(names, ls, rays) + after;
    ReadWriteHeaders(names, ls, rays, after);
    assert after[0] == RealValue(t) && after[1..] == rest;
    OpenWith(file, ls, after);
  }

  /** Open once the device count and the headers have been read: the
      first time stamp becomes the next one. */
  lemma {:induction false} OpenWith<F>(file: seq<Value<F>>, ls: seq<Layout>, after: seq<Value<F>>)
    requires |file| >= 1 && file[0] == IntValue(|ls|)
    requires ReadHeaders(|ls|, file[1..]) == Success((ls, after))
    requires |after| >= 1 && after[0].RealValue?
    ensures Open(file) == Success(Adapter(ls, seq(|ls|, _ => DeviceState([], [], [])), None, Some(after[0].r), true, false, after[1..]))
  {
  }

  /** updateInputDevices: nothing once done; otherwise the next time stamp
      becomes current, every device reads its record in index order, and
      the following time stamp is read, or `done` set if the file ends. */
  function Update<F>(a: Adapter<F>): (r: Result<Adapter<F>, ReadError>)
    requires ValidAdapter(a)
    ensures a.done ==> r == Success(a)
    ensures r.Success? ==> ValidAdapter(r.value)
    ensures !a.done ==> (r.Success? <==>
      |a.file| >= FrameLength(a.layouts)
      && (|a.file| > FrameLength(a.layouts) ==> a.file[FrameLength(a.layouts)].RealValue?))
    ensures !a.done && r.Success? ==>
      && !r.value.firstFrame
      && r.value.layouts == a.layouts
      && r.value.timeStamp == a.nextTimeStamp
      && (r.value.done <==> |a.file| == FrameLength(a.layouts))
      && (!r.value.done ==> r.value.file == a.file[FrameLength(a.layouts) + 1..])
  {
    if a.done then Success(a)
    else
      match ReadDevices(a.layouts, a.devices, a.file)
      case None => Failure(ReadError)
      case Some((ds, rest)) =>
        var b := a.(devices := ds, timeStamp := a.nextTimeStamp, firstFrame := false);
        if |rest| == 0 then Success(b.(done := true, nextTimeStamp := None, file := rest))
        else if !rest[0].RealValue? then Failure(ReadError)
        else Success(b.(nextTimeStamp := Some(rest[0].r), file := rest[1..]))
  }

  /** The adapter after n updates, stopping at a read error. */
  function UpdateTimes<F>(a: Adapter<F>, n: nat): (r: Result<Adapter<F>, ReadError>)
    requires ValidAdapter(a)
    ensures r.Success? ==> ValidAdapter(r.value)
    decreases n
  {
    if n == 0 then Success(a)
    else match Update(a)
      case Failure(e) => Failure(e)
      case Success(b) => UpdateTimes(b, n - 1)
  }

  /** `done` is only ever set: once done, any number of updates change
      nothing; and an adapter that is done after some updates stays done. */
  lemma {:induction false} DoneIsFinal<F>(a: Adapter<F>, n: nat)
    requires ValidAdapter(a) && a.done
    ensures UpdateTimes(a, n) == Success(a)
  {
    if n > 0 {
      DoneIsFinal(a, n - 1);
    }
  }

  /** After any update that ran, firstFrame is false, and it stays false. */
  lemma {:induction false} FirstFrameCleared<F>(a: Adapter<F>, n: nat)
    requires ValidAdapter(a) && !a.done && n >= 1
    requires UpdateTimes(a, n).Success?
    ensures !UpdateTimes(a, n).value.firstFrame
    decreases n
  {
    var b := Update(a).value;
    if n > 1 {
      if b.done {
        DoneIsFinal(b, n - 1);
      } else {
        FirstFrameCleared(b, n - 1);
      }
    }
  }

  /** A frame the recorder wrote plays back as the recorded device states
      and time stamp, and playback moves on to the following frame. */
  lemma UpdateReplaysFrame<F>(a: Adapter<F>, sts: seq<DeviceState<F>>, t: F, rest: seq<Value<F>>)
    requires ValidAdapter(a) && !a.done && |sts| == |a.layouts|
    requires forall i :: 0 <= i < |a.layouts| ==> Fits(a.layouts[i], sts[i]) && (!a.layouts[i].tracked ==> sts[i].pose == a.devices[i].pose)
    requires a.file == WriteDevices(a.layouts, sts) + ([RealValue(t)] + rest)
    ensures Update(a).Success?
    ensures Update(a).value.devices == sts
    ensures Update(a).value.timeStamp == a.nextTimeStamp && Update(a).value.nextTimeStamp == Some(t)
    ensures Update(a).value.file == rest
  {
    ReadWriteDevices(a.layouts, sts, a.devices, [RealValue(t)] + rest);
  }
}

/** Bulk transfers between the Wiimote driver and the device's memory,
    modelled as sequential state updates: a memory read is answered by
    0x21 reply reports carrying up to 16 bytes each, a memory write goes out
    in 16-byte chunks, each acknowledged by a 0x22 report. The waiting
    requester and the receiving thread are folded into one sequence of
    steps; a signal to the requester ends the transfer. In the source the
    woken requester, not the report handler, clears the active flag of
    either transfer. The write model folds that into the acknowledgement
    handler, which clears the flag whenever it signals; the read handler as
    written keeps the flag set, as the source's handler does, so that a
    reply arriving before the requester wakes is still handled, and only
    the corrected read handler clears it. */
module WiimoteTransfer {
  import opened Bytes
  import opened Wrappers
  import WiimotePackets

  /* ---------------------------------------------------------------- */
  /* Memory reads                                                       */
  /* ---------------------------------------------------------------- */

  /** Error codes a read reply can carry. */
  const NoError: int := 0
  const WriteOnlyAddress: int := 7
  const NonexistentMemory: int := 8

  /** State of a memory read: whether one is active, the `size_t` count of
      outstanding bytes, the bytes stored so far and the reply error. */
  datatype Download = Download(active: bool, remaining: nat, received: seq<Byte>, error: int)

  ghost predicate ValidDownload(d: Download)
  {
    d.remaining < TwoTo64
  }

  /** The reply fields: the error nibble and the data count (the high
      nibble plus one). */
  function ReplyError(packet: seq<Byte>): (e: int)
    requires |packet| >= 5
    ensures 0 <= e < 16
  {
    (packet[4] & 0x0f) as int
  }

  function ReplyCount(packet: seq<Byte>): (k: nat)
    requires |packet| >= 5
    ensures 1 <= k <= 16
  {
    (packet[4] >> 4) as int + 1
  }

  /** downloadData's set-up: the length is cut to 16 bits. */
  function StartDownload(size: nat): (d: Download)
    requires size < TwoTo64
    ensures ValidDownload(d) && d.active && d.error == NoError && d.received == []
    ensures d.remaining == size % TwoTo16
  {
    Download(true, size % TwoTo16, [], NoError)
  }

  /** Number of bytes the copy loop stores: it runs while i < k and
      i < int(remaining), where the `size_t` count is converted to `int`. */
  function CopyCount(k: nat, remaining: nat): (n: nat)
    requires remaining < TwoTo64
    ensures n <= k
    ensures remaining < TwoTo31 ==> n == if k <= remaining then k else remaining
  {
    var limit := ToInt32(remaining);
    if limit <= 0 then 0 else if k <= limit then k else limit
  }

  /** The 0x21 reply handling as written: the count is decremented by the
      full data count even when fewer bytes were outstanding, so it wraps
      modulo 2^64. Returns the new state and whether the requester is
      signalled. */
  function DownloadReplyAsWritten(d: Download, packet: seq<Byte>): (r: (Download, bool))
    requires ValidDownload(d) && |packet| == 23
    ensures ValidDownload(r.0)
    ensures !d.active ==> r == (d, false)
    ensures d.active && ReplyError(packet) != 0 ==> r == (d.(error := ReplyError(packet)), true)
    ensures d.active ==> r.0.error == ReplyError(packet)
    ensures d.active && ReplyError(packet) == 0 ==>
      && r.0.remaining == SizeSub(d.remaining, ReplyCount(packet))
      && r.0.received == d.received + packet[7..7 + CopyCount(ReplyCount(packet), d.remaining)]
      && (r.1 <==> r.0.remaining == 0)
  {
    if !d.active then (d, false)
    else if ReplyError(packet) != 0 then (d.(error := ReplyError(packet)), true)
    else
      var k := ReplyCount(packet);
      var n := CopyCount(k, d.remaining);
      var rest := SizeSub(d.remaining, k);
      (d.(error := NoError, remaining := rest, received := d.received + packet[7..7 + n]), rest == 0)
  }

  /** A reply that carries more bytes than are outstanding, which includes
      every reply to a zero-length read, never signals completion: the
      count wraps to at least 2^64 - 16. */
  lemma OvershootNeverCompletes(d: Download, packet: seq<Byte>)
    requires ValidDownload(d) && |packet| == 23
    requires d.active && ReplyError(packet) == 0 && ReplyCount(packet) > d.remaining
    ensures !DownloadReplyAsWritten(d, packet).1
    ensures DownloadReplyAsWritten(d, packet).0.remaining >= TwoTo64 - 16
  {
  }

  /** Every reply to an active read overwrites the error code, so a clean
      reply after a failed one makes the data available to the requester
      again. */
  lemma CleanReplyClearsError(d: Download, failed: seq<Byte>, clean: seq<Byte>)
    requires ValidDownload(d) && d.active && |failed| == 23 && |clean| == 23
    requires ReplyError(clean) == 0
    ensures var (d1, _) := DownloadReplyAsWritten(d, failed);
      var (d2, _) := DownloadReplyAsWritten(d1, clean);
      && (DownloadResult(d1).Some? <==> ReplyError(failed) == 0)
      && DownloadResult(d2) == Some(d2.received)
  {
  }

  lemma ZeroLengthReadNeverCompletes(size: nat, packet: seq<Byte>)
    requires size < TwoTo64 && size % TwoTo16 == 0 && |packet| == 23
    requires ReplyError(packet) == 0
    ensures !DownloadReplyAsWritten(StartDownload(size), packet).1
  {
    OvershootNeverCompletes(StartDownload(size), packet);
  }

  /** Feeds a sequence of replies to the handler as written; reports
      whether the requester was signalled along the way. The handler never
      clears the active flag (the requester does, once woken), and the
      data received so far is only ever extended. */
  function RunDownloadAsWritten(d: Download, replies: seq<seq<Byte>>): (r: (Download, bool))
    requires ValidDownload(d)
    requires forall i :: 0 <= i < |replies| ==> |replies[i]| == 23
    ensures ValidDownload(r.0)
    ensures r.0.active == d.active
    ensures !d.active ==> r == (d, false)
    ensures d.received <= r.0.received
    decreases |replies|
  {
    if |replies| == 0 then (d, false)
    else
      var (d1, signalled) := DownloadReplyAsWritten(d, replies[0]);
      var (d2, later) := RunDownloadAsWritten(d1, replies[1..]);
      (d2, signalled || later)
  }

  /** While a reply carries no more bytes than are outstanding (and the
      count is small enough for the `int` conversion), the handler as
      written and the corrected one store the same bytes, leave the same
      count and signal alike; they differ only in the active flag, which
      the corrected handler clears itself. */
  lemma ReplyAsWrittenAgrees(d: Download, packet: seq<Byte>)
    requires ValidDownload(d) && |packet| == 23 && d.active && d.remaining < TwoTo31
    requires ReplyError(packet) == 0 && ReplyCount(packet) <= d.remaining
    ensures var (w, sw) := DownloadReplyAsWritten(d, packet);
      var (c, sc) := DownloadReply(d, packet);
      w.received == c.received && w.remaining == c.remaining && sw == sc && w.error == c.error
  {
  }

  /** The corrected reply handling: the count saturates at zero, and the
      requester is signalled as soon as it reaches zero. */
  function DownloadReply(d: Download, packet: seq<Byte>): (r: (Download, bool))
    requires |packet| == 23
    ensures !d.active ==> r == (d, false)
    ensures d.active && ReplyError(packet) != 0 ==> r == (d.(error := ReplyError(packet), active := false), true)
    ensures d.active ==> r.0.error == ReplyError(packet)
    ensures d.active && ReplyError(packet) == 0 ==>
      var n := if ReplyCount(packet) <= d.remaining then ReplyCount(packet) else d.remaining;
      && r.0.remaining == d.remaining - n
      && r.0.received == d.received + packet[7..7 + n]
      && (r.1 <==> r.0.remaining == 0)
      && r.0.active == !r.1
  {
    if !d.active then (d, false)
    else if ReplyError(packet) != 0 then (d.(error := ReplyError(packet), active := false), true)
    else
      var k := ReplyCount(packet);
      var n := if k <= d.remaining then k else d.remaining;
      var rest := d.remaining - n;
      (d.(error := NoError, remaining := rest, received := d.received + packet[7..7 + n], active := rest != 0), rest == 0)
  }

  /** The corrected set-up: a zero-length read is complete at once. */
  function StartDownloadFixed(size: nat): (r: (Download, bool))
    requires size < TwoTo64
    ensures r.0.remaining == size % TwoTo16 && r.0.received == [] && r.0.error == NoError
    ensures r.1 <==> size % TwoTo16 == 0
    ensures r.0.active == !r.1
  {
    var n := size % TwoTo16;
    (Download(n != 0, n, [], NoError), n == 0)
  }

  /** Data bytes of a reply and the total over a sequence of replies. */
  function Payload(packet: seq<Byte>): (p: seq<Byte>)
    requires |packet| == 23
    ensures |p| == ReplyCount(packet)
  {
    packet[7..7 + ReplyCount(packet)]
  }

  ghost predicate ErrorFree(replies: seq<seq<Byte>>)
  {
    forall i :: 0 <= i < |replies| ==> |replies[i]| == 23 && ReplyError(replies[i]) == 0
  }

  ghost function Delivered(replies: seq<seq<Byte>>): (s: seq<Byte>)
    requires ErrorFree(replies)
  {
    if |replies| == 0 then [] else Payload(replies[0]) + Delivered(replies[1..])
  }

  /** Feeds a sequence of replies to the corrected handler; reports whether
      the requester was signalled along the way. */
  function RunDownload(d: Download, replies: seq<seq<Byte>>): (r: (Download, bool))
    requires forall i :: 0 <= i < |replies| ==> |replies[i]| == 23
    ensures !d.active ==> r == (d, false)
    decreases |replies|
  {
    if |replies| == 0 then (d, false)
    else
      var (d1, signalled) := DownloadReply(d, replies[0]);
      var (d2, later) := RunDownload(d1, replies[1..]);
      (d2, signalled || later)
  }

  /** Without errors, a read of m outstanding bytes ends exactly when the
      replies have delivered at least m bytes, and then holds the first m
      of them; until then it holds everything delivered. */
  lemma {:induction false} DownloadRunDelivers(d: Download, replies: seq<seq<Byte>>)
    requires d.active && d.remaining > 0 && d.error == NoError && ErrorFree(replies)
    ensures var (r, signalled) := RunDownload(d, replies);
      var all := Delivered(replies);
      && (signalled <==> |all| >= d.remaining)
      && (signalled ==> !r.active && r.error == NoError && r.received == d.received + all[..d.remaining])
      && (!signalled ==> r.active && r.received == d.received + all && r.remaining == d.remaining - |all|)
    decreases |replies|
  {
    if |replies| == 0 {
    } else {
      var p := replies[0];
      var (d1, s1) := DownloadReply(d, p);
      var rest := replies[1..];
      assert ErrorFree(rest);
      var all := Delivered(replies);
      assert all == Payload(p) + Delivered(rest);
      if s1 {
        assert RunDownload(d, replies) == (RunDownload(d1, rest).0, true);
        assert all[..d.remaining] == Payload(p)[..d.remaining];
        assert p[7..7 + d.remaining] == Payload(p)[..d.remaining];
      } else {
        DownloadRunDelivers(d1, rest);
        assert d1.received == d.received + Payload(p);
        var all1 := Delivered(rest);
        if |all1| >= d1.remaining {
          assert all[..d.remaining] == Payload(p) + all1[..d1.remaining];
        }
      }
    }
  }

  /** The requester's result: the data on success, nothing on an error. */
  function DownloadResult(d: Download): (r: Option<seq<Byte>>)
    ensures r.Some? <==> d.error == NoError
    ensures r.Some? ==> r.value == d.received
  {
    if d.error != NoError then None else Some(d.received)
  }

  /* ---------------------------------------------------------------- */
  /* Memory writes                                                      */
  /* ---------------------------------------------------------------- */

  /** State of a memory write: the target space, the address of the next
      chunk, the bytes still to send and the acknowledgement error. */
  datatype Upload = Upload(active: bool, toRegister: bool, address: int, pending: seq<Byte>, error: int)

  /** writeUploadPacket: sends up to 16 pending bytes and advances. */
  function SendChunk(u: Upload): (r: (Upload, seq<Byte>))
    ensures var c := if |u.pending| <= 16 then |u.pending| else 16;
      && r.1 == WiimotePackets.UploadPacket(u.toRegister, u.address, u.pending[..c])
      && r.0 == u.(address := u.address + c, pending := u.pending[c..])
  {
    var c := if |u.pending| <= 16 then |u.pending| else 16;
    (u.(address := u.address + c, pending := u.pending[c..]), WiimotePackets.UploadPacket(u.toRegister, u.address, u.pending[..c]))
  }

  /** uploadData's set-up: the length is cut to 16 bits and the first chunk
      goes out at once, even when it is empty. */
  function StartUpload(toRegister: bool, address: int, data: seq<Byte>): (r: (Upload, seq<Byte>))
    requires |data| < TwoTo64
    ensures r.0.active && r.0.error == NoError && r.0.toRegister == toRegister
    ensures r == SendChunk(Upload(true, toRegister, address, data[..|data| % TwoTo16], NoError))
  {
    SendChunk(Upload(true, toRegister, address, data[..|data| % TwoTo16], NoError))
  }

  function AckError(packet: seq<Byte>): (e: int)
    requires |packet| >= 6
    ensures 0 <= e < 16
  {
    (packet[5] & 0x0f) as int
  }

  /** The 0x22 acknowledgement: an error or an empty queue ends the write,
      otherwise the next chunk goes out. */
  function UploadAck(u: Upload, packet: seq<Byte>): (r: (Upload, Option<seq<Byte>>))
    requires |packet| >= 6
    ensures !u.active ==> r == (u, None)
    ensures u.active && (AckError(packet) != 0 || |u.pending| == 0) ==>
      r == (u.(active := false, error := AckError(packet)), None)
    ensures u.active && AckError(packet) == 0 && |u.pending| > 0 ==>
      r.1 == Some(SendChunk(u).1) && r.0 == SendChunk(u).0.(error := 0)
  {
    if !u.active then (u, None)
    else
      var e := AckError(packet);
      if e != 0 || |u.pending| == 0 then (u.(active := false, error := e), None)
      else
        var (u1, p) := SendChunk(u);
        (u1.(error := e), Some(p))
  }

  /** uploadData's result. */
  function UploadSucceeded(u: Upload): bool
  {
    u.error == NoError
  }

  ghost predicate AcksErrorFree(acks: seq<seq<Byte>>)
  {
    forall i :: 0 <= i < |acks| ==> |acks[i]| >= 6 && AckError(acks[i]) == 0
  }

  /** Feeds acknowledgements to the write; collects the chunks sent. */
  function RunUpload(u: Upload, acks: seq<seq<Byte>>): (r: (Upload, seq<seq<Byte>>))
    requires forall i :: 0 <= i < |acks| ==> |acks[i]| >= 6
    ensures !u.active ==> r == (u, [])
    decreases |acks|
  {
    if |acks| == 0 || !u.active then (u, [])
    else
      var (u1, sent) := UploadAck(u, acks[0]);
      var (u2, more) := RunUpload(u1, acks[1..]);
      (u2, (if sent.Some? then [sent.value] else []) + more)
  }

  function Chunks(n: nat): nat
  {
    (n + 15) / 16
  }

  /** The data bytes carried by a sequence of chunk packets. */
  function Carried(packets: seq<seq<Byte>>): seq<Byte>
  {
    if |packets| == 0 then []
    else
      var p := WiimotePackets.ParseUploadPacket(packets[0]);
      (if p.Some? then p.value.data else []) + Carried(packets[1..])
  }

  lemma CarriedAppend(a: seq<seq<Byte>>, b: seq<seq<Byte>>)
    ensures Carried(a + b) == Carried(a) + Carried(b)
  {
    if |a| == 0 {
      assert a + b == b;
    } else {
      assert (a + b)[1..] == a[1..] + b;
    }
  }

  /** One error-free acknowledgement of an active write with pending bytes
      sends the next chunk, which carries the first (up to) 16 of them. */
  lemma UploadStep(u: Upload, ack: seq<Byte>)
    requires u.active && |ack| >= 6 && AckError(ack) == 0 && |u.pending| > 0
    ensures var r := UploadAck(u, ack);
      var c := if |u.pending| <= 16 then |u.pending| else 16;
      && r.0.active && r.0.error == NoError
      && r.0.pending == u.pending[c..]
      && r.1.Some?
      && Carried([r.1.value]) == u.pending[..c]
  {
    var c := if |u.pending| <= 16 then |u.pending| else 16;
    WiimotePackets.UploadPacketRoundTrip(u.toRegister, u.address, u.pending[..c]);
    var p := UploadAck(u, ack).1.value;
    assert p == SendChunk(u).1;
    assert Carried([p]) == u.pending[..c] + Carried([]);
  }

  lemma ChunksStep(n: nat, c: nat)
    requires n > 0 && c == (if n <= 16 then n else 16)
    ensures Chunks(n - c) == Chunks(n) - 1
  {
  }

  /** Feeding acknowledgements to an active write: the first one's chunk,
      then whatever the rest send. */
  lemma RunUploadCons(u: Upload, acks: seq<seq<Byte>>)
    requires u.active && |acks| >= 1
    requires forall i :: 0 <= i < |acks| ==> |acks[i]| >= 6
    ensures var step := UploadAck(u, acks[0]);
      var rest := RunUpload(step.0, acks[1..]);
      RunUpload(u, acks) == (rest.0, (if step.1.Some? then [step.1.value] else []) + rest.1)
  {
  }

  lemma AcksErrorFreeTail(acks: seq<seq<Byte>>)
    requires |acks| >= 1 && AcksErrorFree(acks)
    ensures AcksErrorFree(acks[1..]) && |acks[0]| >= 6 && AckError(acks[0]) == 0
  {
    assert forall i :: 0 <= i < |acks| - 1 ==> acks[1..][i] == acks[i + 1];
  }

  /** One error-free acknowledgement of a write with pending bytes, then
      the rest of the run: one chunk carrying the first (up to) 16 bytes,
      then what the rest of the run sends from the remaining bytes. */
  lemma UploadRunCons(u: Upload, acks: seq<seq<Byte>>)
    requires u.active && |acks| >= 1 && AcksErrorFree(acks) && |u.pending| > 0
    ensures var c := if |u.pending| <= 16 then |u.pending| else 16;
      var next := UploadAck(u, acks[0]).0;
      var rest := RunUpload(next, acks[1..]);
      && next.active && next.pending == u.pending[c..] && AcksErrorFree(acks[1..])
      && RunUpload(u, acks).0 == rest.0
      && |RunUpload(u, acks).1| == 1 + |rest.1|
      && Carried(RunUpload(u, acks).1) == u.pending[..c] + Carried(rest.1)
  {
    AcksErrorFreeTail(acks);
    RunUploadCons(u, acks);
    UploadStep(u, acks[0]);
    var step := UploadAck(u, acks[0]);
    var rest := RunUpload(step.0, acks[1..]);
    CarriedAppend([step.1.value], rest.1);
  }

  /** With error-free acknowledgements, an active write with pending bytes
      sends one chunk per 16 bytes (rounded up), carrying exactly those
      bytes, and the acknowledgement after the last chunk ends it
      successfully. */
  lemma {:induction false} UploadRunSendsAll(u: Upload, acks: seq<seq<Byte>>)
    requires u.active && AcksErrorFree(acks)
    requires |acks| == Chunks(|u.pending|) + 1
    ensures !RunUpload(u, acks).0.active && UploadSucceeded(RunUpload(u, acks).0)
    ensures |RunUpload(u, acks).1| == Chunks(|u.pending|)
    ensures Carried(RunUpload(u, acks).1) == u.pending
    decreases |acks|
  {
    if |u.pending| == 0 {
      AcksErrorFreeTail(acks);
      RunUploadCons(u, acks);
      assert acks[1..] == [];
    } else {
      var c := if |u.pending| <= 16 then |u.pending| else 16;
      UploadRunCons(u, acks);
      ChunksStep(|u.pending|, c);
      UploadRunSendsAll(UploadAck(u, acks[0]).0, acks[1..]);
      assert u.pending == u.pending[..c] + u.pending[c..];
    }
  }

  /** uploadData as a whole: the first chunk, then the acknowledgements.
      Returns the final state and every packet sent. */
  function UploadData(toRegister: bool, address: int, data: seq<Byte>, acks: seq<seq<Byte>>): (r: (Upload, seq<seq<Byte>>))
    requires |data| < TwoTo64
    requires forall i :: 0 <= i < |acks| ==> |acks[i]| >= 6
    ensures |r.1| >= 1
  {
    var (u, first) := StartUpload(toRegister, address, data);
    var (final, sent) := RunUpload(u, acks);
    (final, [first] + sent)
  }

  /** A whole write of n = |data| mod 2^16 bytes: max(1, ceil(n / 16))
      packets, carrying exactly the first n bytes, then success. */
  lemma UploadSendsData(toRegister: bool, address: int, data: seq<Byte>, acks: seq<seq<Byte>>)
    requires |data| < TwoTo64 && AcksErrorFree(acks)
    requires |acks| == if |data| % TwoTo16 == 0 then 1 else Chunks(|data| % TwoTo16)
    ensures var (r, packets) := UploadData(toRegister, address, data, acks);
      && !r.active && UploadSucceeded(r)
      && |packets| == (if |data| % TwoTo16 == 0 then 1 else Chunks(|data| % TwoTo16))
      && Carried(packets) == data[..|data| % TwoTo16]
  {
    var n := |data| % TwoTo16;
    var (u, first) := StartUpload(toRegister, address, data);
    var c := if n <= 16 then n else 16;
    var whole := data[..n];
    assert |u.pending| == n - c;
    ChunksAfterFirst(n, c);
    UploadRunSendsAll(u, acks);
    var sent := RunUpload(u, acks).1;
    assert Carried([first] + sent) == whole by {
      assert u.pending == whole[c..];
      FirstChunkCarries(toRegister, address, whole, c);
      CarriedAppend([first], sent);
      assert whole == whole[..c] + whole[c..];
    }
  }

  lemma ChunksAfterFirst(n: nat, c: nat)
    requires c == if n <= 16 then n else 16
    ensures Chunks(n - c) + 1 == if n == 0 then 1 else Chunks(n)
  {
  }

  lemma FirstChunkCarries(toRegister: bool, address: int, whole: seq<Byte>, c: nat)
    requires c == if |whole| <= 16 then |whole| else 16
    ensures Carried([SendChunk(Upload(true, toRegister, address, whole, NoError)).1]) == whole[..c]
  {
    var first := SendChunk(Upload(true, toRegister, address, whole, NoError)).1;
    WiimotePackets.UploadPacketRoundTrip(toRegister, address, whole[..c]);
    assert [first][1..] == [];
  }
}

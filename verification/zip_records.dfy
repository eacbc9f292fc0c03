/** Archives as an archiver writes them: the End of Central Directory
    record, central file headers and local file headers encoded from
    their fields, and the reader of the ZIP archive model reading each
    of them back. */
module ZipRecords {
  import opened Bytes
  import opened Octets
  import opened Wrappers
  import opened ZipArchive

  /* ---------------------------------------------------------------- */
  /* The End of Central Directory record                               */
  /* ---------------------------------------------------------------- */

  /** Reading back a little-endian field placed at position i. */
  lemma ReadBack32(data: seq<Octet>, i: nat, v: nat)
    requires v < TwoTo32 && i + 4 <= |data|
    requires forall j :: 0 <= j < 4 ==> data[i + j] == LE32(v)[j]
    ensures U32At(data, i) == v
  {
    assert data[i..i + 4] == LE32(v);
    U32RoundTrip(v, data, i);
  }

  lemma ReadBack16(data: seq<Octet>, i: nat, v: nat)
    requires v < TwoTo16 && i + 2 <= |data|
    requires forall j :: 0 <= j < 2 ==> data[i + j] == LE16(v)[j]
    ensures U16At(data, i) == v
  {
    assert data[i..i + 2] == LE16(v);
    U16RoundTrip(v, data, i);
  }

  /** A field of a record's fixed header h, read back from an archive in
      which the record (h followed by its variable part t) starts after pre. */
  lemma FieldAt32(pre: seq<Octet>, h: seq<Octet>, t: seq<Octet>, post: seq<Octet>, off: nat, v: nat)
    requires v < TwoTo32 && off + 4 <= |h|
    requires forall j :: 0 <= j < 4 ==> h[off + j] == LE32(v)[j]
    ensures U32At(pre + (h + t) + post, |pre| + off) == v
  {
    var data := pre + (h + t) + post;
    forall j | 0 <= j < 4
      ensures data[|pre| + off + j] == LE32(v)[j]
    {
      assert data[|pre| + off + j] == h[off + j];
    }
    ReadBack32(data, |pre| + off, v);
  }

  lemma FieldAt16(pre: seq<Octet>, h: seq<Octet>, t: seq<Octet>, post: seq<Octet>, off: nat, v: nat)
    requires v < TwoTo16 && off + 2 <= |h|
    requires forall j :: 0 <= j < 2 ==> h[off + j] == LE16(v)[j]
    ensures U16At(pre + (h + t) + post, |pre| + off) == v
  {
    var data := pre + (h + t) + post;
    forall j | 0 <= j < 2
      ensures data[|pre| + off + j] == LE16(v)[j]
    {
      assert data[|pre| + off + j] == h[off + j];
    }
    ReadBack16(data, |pre| + off, v);
  }

  /** The fixed part of an End of Central Directory record: signature, the
      8 bytes of disk numbers and entry counts the reader skips, the
      directory's size and offset, and the comment length. */
  function EndOfDirectoryHeader(counts: seq<Octet>, cdSize: nat, cdOffset: nat, commentLength: nat): (h: seq<Octet>)
    requires |counts| == 8 && cdSize < TwoTo32 && cdOffset < TwoTo32 && commentLength < TwoTo16
    ensures |h| == EndOfDirectorySize
  {
    seq(EndOfDirectorySize, i requires 0 <= i < EndOfDirectorySize =>
      if i < 4 then EndSigBytes[i]
      else if i < 12 then counts[i - 4]
      else if i < 16 then LE32(cdSize)[i - 12]
      else if i < 20 then LE32(cdOffset)[i - 16]
      else LE16(commentLength)[i - 20])
  }

  /** The record with its comment. */
  function EndOfDirectoryRecord(counts: seq<Octet>, cdSize: nat, cdOffset: nat, comment: seq<Octet>): (rec: seq<Octet>)
    requires |counts| == 8 && cdSize < TwoTo32 && cdOffset < TwoTo32 && |comment| < TwoTo16
    ensures |rec| == EndOfDirectorySize + |comment|
  {
    EndOfDirectoryHeader(counts, cdSize, cdOffset, |comment|) + comment
  }

  /** The End of Central Directory record written after `body` reads back
      field by field. */
  lemma EndOfDirectoryFields(body: seq<Octet>, counts: seq<Octet>, cdSize: nat, cdOffset: nat, comment: seq<Octet>)
    requires |counts| == 8 && cdSize < TwoTo32 && cdOffset < TwoTo32 && |comment| < TwoTo16
    ensures var data := body + EndOfDirectoryRecord(counts, cdSize, cdOffset, comment);
      var q := |body|;
      && SigAt(data, q) && U32At(data, q) == EndOfDirectorySig
      && U32At(data, q + 12) == cdSize && U32At(data, q + 16) == cdOffset
      && U16At(data, q + 20) == |comment|
  {
    var h := EndOfDirectoryHeader(counts, cdSize, cdOffset, |comment|);
    var data := body + EndOfDirectoryRecord(counts, cdSize, cdOffset, comment);
    assert data == body + (h + comment) + [];
    var q := |body|;
    assert data[q..q + 4] == EndSigBytes by {
      forall j | 0 <= j < 4
        ensures data[q + j] == EndSigBytes[j]
      {
        assert data[q + j] == h[j];
      }
    }
    SignatureValues(data, q);
    SigAtIsEndOfDirectoryBytes(data, q);
    FieldAt32(body, h, comment, [], 12, cdSize);
    FieldAt32(body, h, comment, [], 16, cdOffset);
    FieldAt16(body, h, comment, [], 20, |comment|);
  }

  lemma SigAtIsEndOfDirectoryBytes(data: seq<Octet>, q: nat)
    requires q + 4 <= |data| && data[q..q + 4] == EndSigBytes
    ensures SigAt(data, q)
  {
    assert data[q..q + 4][0] == data[q] && data[q..q + 4][1] == data[q + 1];
    assert data[q..q + 4][2] == data[q + 2] && data[q..q + 4][3] == data[q + 3];
  }

  /** A maximal comment still leaves the whole record inside the window. */
  lemma RecordFitsWindow(size: nat, recordStart: nat, commentLength: nat)
    requires commentLength < TwoTo16 && recordStart + EndOfDirectorySize + commentLength == size
    ensures WindowStart(size) <= recordStart
  {
  }

  /** The consistency checks pass on a consistent record. */
  lemma ReadEndOfDirectoryAccepts(data: seq<Octet>, q: nat)
    requires q + EndOfDirectorySize <= |data| && U32At(data, q) == EndOfDirectorySig
    requires U32At(data, q + 16) + U32At(data, q + 12) == q && q + EndOfDirectorySize + U16At(data, q + 20) == |data|
    ensures ReadEndOfDirectory(data, q) == Success(CentralDirectory(U32At(data, q + 16), U32At(data, q + 12)))
  {
  }

  /** Past the first signature check, initArchive reads the record at the
      last signature. */
  lemma InitArchiveReads(data: seq<Octet>, q: nat)
    requires |data| >= 4 && U32At(data, 0) == LocalHeaderSig
    requires LastSignature(data, WindowStart(|data|), |data|) == Some(q)
    ensures q + 4 <= |data| && InitArchive(data) == ReadEndOfDirectory(data, q)
  {
  }

  /** The first four bytes of the archive are those of its first record. */
  lemma PrefixU32(body: seq<Octet>, rest: seq<Octet>)
    requires |body| >= 4
    ensures U32At(body + rest, 0) == U32At(body, 0)
  {
    var data := body + rest;
    assert data[0] == body[0] && data[1] == body[1] && data[2] == body[2] && data[3] == body[3];
  }

  /** An archive whose central directory is followed by its End of Central
      Directory record opens, provided no later bytes (the record's own
      fields or its comment) spell the signature again. */
  lemma InitArchiveOfRecord(body: seq<Octet>, counts: seq<Octet>, cdSize: nat, cdOffset: nat, comment: seq<Octet>)
    requires |counts| == 8 && cdSize < TwoTo32 && cdOffset < TwoTo32 && |comment| < TwoTo16
    requires |body| >= 4 && U32At(body, 0) == LocalHeaderSig && cdOffset + cdSize == |body|
    requires var data := body + EndOfDirectoryRecord(counts, cdSize, cdOffset, comment);
      forall q :: |body| < q ==> !SigAt(data, q)
    ensures InitArchive(body + EndOfDirectoryRecord(counts, cdSize, cdOffset, comment))
      == Success(CentralDirectory(cdOffset, cdSize))
  {
    var data := body + EndOfDirectoryRecord(counts, cdSize, cdOffset, comment);
    var q := |body|;
    PrefixU32(body, EndOfDirectoryRecord(counts, cdSize, cdOffset, comment));
    EndOfDirectoryFields(body, counts, cdSize, cdOffset, comment);
    RecordFitsWindow(|data|, q, |comment|);
    LastSignatureIs(data, WindowStart(|data|), |data|, q);
    InitArchiveReads(data, q);
    ReadEndOfDirectoryAccepts(data, q);
  }

  /** A central directory file header: signature, 16 bytes the reader
      skips (versions, flags, method, time, date, CRC), the sizes, the
      three lengths, 8 more skipped bytes (disk, attributes), the local
      header's offset, then name, extra field and comment. */
  datatype CentralEntry = CentralEntry(
    skipped1: seq<Octet>, compressedSize: nat, uncompressedSize: nat,
    skipped2: seq<Octet>, localHeaderOffset: nat,
    name: seq<Octet>, extra: seq<Octet>, comment: seq<Octet>)

  ghost predicate EncodableEntry(e: CentralEntry)
  {
    |e.skipped1| == 16 && |e.skipped2| == 8
    && e.compressedSize < TwoTo32 && e.uncompressedSize < TwoTo32 && e.localHeaderOffset < TwoTo32
    && |e.name| < TwoTo16 && |e.extra| < TwoTo16 && |e.comment| < TwoTo16
  }

  function CentralHeader(e: CentralEntry): (h: seq<Octet>)
    requires EncodableEntry(e)
    ensures |h| == CentralHeaderSize
  {
    seq(CentralHeaderSize, i requires 0 <= i < CentralHeaderSize =>
      if i < 4 then CentralSigBytes[i]
      else if i < 20 then e.skipped1[i - 4]
      else if i < 24 then LE32(e.compressedSize)[i - 20]
      else if i < 28 then LE32(e.uncompressedSize)[i - 24]
      else if i < 30 then LE16(|e.name|)[i - 28]
      else if i < 32 then LE16(|e.extra|)[i - 30]
      else if i < 34 then LE16(|e.comment|)[i - 32]
      else if i < 42 then e.skipped2[i - 34]
      else LE32(e.localHeaderOffset)[i - 42])
  }

  function CentralRecord(e: CentralEntry): (rec: seq<Octet>)
    requires EncodableEntry(e)
    ensures |rec| == CentralHeaderSize + |e.name| + |e.extra| + |e.comment|
  {
    CentralHeader(e) + (e.name + e.extra + e.comment)
  }

  /** The signature of a record's fixed header h, read back. */
  lemma SignatureAt(pre: seq<Octet>, h: seq<Octet>, t: seq<Octet>, post: seq<Octet>, sig: seq<Octet>)
    requires |sig| == 4 && |h| >= 4 && h[..4] == sig
    ensures var data := pre + (h + t) + post; |pre| + 4 <= |data| && data[|pre|..|pre| + 4] == sig
  {
    var data := pre + (h + t) + post;
    forall j | 0 <= j < 4
      ensures data[|pre| + j] == sig[j]
    {
      assert data[|pre| + j] == h[j];
    }
  }

  /** A written central record reads back field by field: the signature
      and the sizes... */
  lemma CentralRecordSizes(pre: seq<Octet>, e: CentralEntry, post: seq<Octet>)
    requires EncodableEntry(e)
    ensures var data := pre + CentralRecord(e) + post;
      var s := |pre|;
      && s + CentralHeaderSize + |e.name| + |e.extra| + |e.comment| <= |data|
      && U32At(data, s) == CentralHeaderSig
      && U32At(data, s + 20) == e.compressedSize
      && U32At(data, s + 24) == e.uncompressedSize
  {
    var h := CentralHeader(e);
    var t := e.name + e.extra + e.comment;
    assert h[..4] == CentralSigBytes;
    SignatureAt(pre, h, t, post, CentralSigBytes);
    SignatureValues(pre + CentralRecord(e) + post, |pre|);
    FieldAt32(pre, h, t, post, 20, e.compressedSize);
    FieldAt32(pre, h, t, post, 24, e.uncompressedSize);
  }

  /** ...the three lengths and the local header's offset. */
  lemma CentralRecordLengths(pre: seq<Octet>, e: CentralEntry, post: seq<Octet>)
    requires EncodableEntry(e)
    ensures var data := pre + CentralRecord(e) + post;
      var s := |pre|;
      && s + CentralHeaderSize <= |data|
      && U16At(data, s + 28) == |e.name|
      && U16At(data, s + 30) == |e.extra|
      && U16At(data, s + 32) == |e.comment|
      && U32At(data, s + 42) == e.localHeaderOffset
  {
    var h := CentralHeader(e);
    var t := e.name + e.extra + e.comment;
    FieldAt16(pre, h, t, post, 28, |e.name|);
    FieldAt16(pre, h, t, post, 30, |e.extra|);
    FieldAt16(pre, h, t, post, 32, |e.comment|);
    FieldAt32(pre, h, t, post, 42, e.localHeaderOffset);
  }

  /** The name follows the fixed header. */
  lemma CentralRecordName(pre: seq<Octet>, e: CentralEntry, post: seq<Octet>)
    requires EncodableEntry(e)
    ensures var data := pre + CentralRecord(e) + post;
      var s := |pre|;
      s + CentralHeaderSize + |e.name| <= |data|
      && data[s + CentralHeaderSize..s + CentralHeaderSize + |e.name|] == e.name
  {
    var h := CentralHeader(e);
    var t := e.name + e.extra + e.comment;
    var data := pre + CentralRecord(e) + post;
    var s := |pre|;
    forall k | 0 <= k < |e.name|
      ensures data[s + CentralHeaderSize + k] == e.name[k]
    {
      assert data[s + CentralHeaderSize + k] == (h + t)[CentralHeaderSize + k];
    }
  }

  /** A slice whose length is given by an equal number. */
  lemma SameSlice(data: seq<Octet>, a: nat, n: nat, name: seq<Octet>)
    requires n == |name| && a + n <= |data| && data[a..a + |name|] == name
    ensures data[a..a + n] == name
  {
  }

  /** A central file header whose name, extra field and comment fit is read
      field by field. */
  lemma ReadCentralEntryFields(data: seq<Octet>, s: nat)
    requires s + CentralHeaderSize <= |data|
    requires s + CentralHeaderSize + U16At(data, s + 28) + U16At(data, s + 30) + U16At(data, s + 32) <= |data|
    ensures ReadCentralEntry(data, s) == Success(Iterator(U32At(data, s + 42), U32At(data, s + 20), U32At(data, s + 24),
      data[s + CentralHeaderSize..s + CentralHeaderSize + U16At(data, s + 28)],
      s + CentralHeaderSize + U16At(data, s + 28) + U16At(data, s + 30) + U16At(data, s + 32)))
  {
  }

  /** The fields of a central file header, given as values, are what the
      reader fills the iterator with. */
  lemma ReadCentralEntryOfFields(data: seq<Octet>, s: nat,
                                 compressedSize: nat, uncompressedSize: nat, localHeaderOffset: nat,
                                 name: seq<Octet>, extraLength: nat, commentLength: nat)
    requires
      && s + CentralHeaderSize + |name| + extraLength + commentLength <= |data|
      && U32At(data, s) == CentralHeaderSig
      && U32At(data, s + 20) == compressedSize
      && U32At(data, s + 24) == uncompressedSize
      && U16At(data, s + 28) == |name|
      && U16At(data, s + 30) == extraLength
      && U16At(data, s + 32) == commentLength
      && U32At(data, s + 42) == localHeaderOffset
      && data[s + CentralHeaderSize..s + CentralHeaderSize + |name|] == name
    ensures var r := ReadCentralEntry(data, s);
      && r.Success?
      && r.value.filePos == localHeaderOffset
      && r.value.compressedSize == compressedSize
      && r.value.uncompressedSize == uncompressedSize
      && r.value.name == name
      && r.value.nextEntryPos == s + CentralHeaderSize + |name| + extraLength + commentLength
  {
    ReadCentralEntryFields(data, s);
    SameSlice(data, s + CentralHeaderSize, U16At(data, s + 28), name);
  }

  /** getNextEntry on a central file header whose fields read as given:
      the iterator is filled from them and the next entry follows the
      name, extra field and comment. */
  lemma GetNextEntryOfFields(data: seq<Octet>, it: Iterator,
                             compressedSize: nat, uncompressedSize: nat, localHeaderOffset: nat,
                             name: seq<Octet>, extraLength: nat, commentLength: nat)
    requires IsValid(it)
    requires var s := it.nextEntryPos;
      && s + CentralHeaderSize + |name| + extraLength + commentLength <= |data|
      && U32At(data, s) == CentralHeaderSig
      && U32At(data, s + 20) == compressedSize
      && U32At(data, s + 24) == uncompressedSize
      && U16At(data, s + 28) == |name|
      && U16At(data, s + 30) == extraLength
      && U16At(data, s + 32) == commentLength
      && U32At(data, s + 42) == localHeaderOffset
      && data[s + CentralHeaderSize..s + CentralHeaderSize + |name|] == name
    ensures var r := GetNextEntry(data, it);
      && r.Success?
      && r.value.filePos == localHeaderOffset
      && r.value.compressedSize == compressedSize
      && r.value.uncompressedSize == uncompressedSize
      && r.value.name == name
      && r.value.nextEntryPos == it.nextEntryPos + CentralHeaderSize + |name| + extraLength + commentLength
  {
    GetNextEntryReads(data, it);
    ReadCentralEntryOfFields(data, it.nextEntryPos, compressedSize, uncompressedSize, localHeaderOffset,
      name, extraLength, commentLength);
  }

  /** Reading a written central record gives back its fields, and the
      next entry starts right after the record. */
  lemma GetNextEntryOfRecord(pre: seq<Octet>, e: CentralEntry, post: seq<Octet>, it: Iterator)
    requires EncodableEntry(e) && |pre| > 0 && it.nextEntryPos == |pre|
    ensures GetNextEntry(pre + CentralRecord(e) + post, it)
      == Success(Iterator(e.localHeaderOffset, e.compressedSize, e.uncompressedSize, e.name, |pre| + |CentralRecord(e)|))
  {
    CentralRecordSizes(pre, e, post);
    CentralRecordLengths(pre, e, post);
    CentralRecordName(pre, e, post);
    GetNextEntryOfFields(pre + CentralRecord(e) + post, it, e.compressedSize, e.uncompressedSize,
      e.localHeaderOffset, e.name, |e.extra|, |e.comment|);
  }

  /** A local file header: signature, 4 skipped bytes (version, flags),
      the method, 8 skipped bytes (time, date, CRC), the sizes, the two
      lengths, then name and extra field. */
  datatype LocalEntry = LocalEntry(
    skipped1: seq<Octet>, compressionMethod: nat, skipped2: seq<Octet>,
    compressedSize: nat, uncompressedSize: nat, name: seq<Octet>, extra: seq<Octet>)

  ghost predicate EncodableLocal(e: LocalEntry)
  {
    |e.skipped1| == 4 && |e.skipped2| == 8 && e.compressionMethod < TwoTo16
    && e.compressedSize < TwoTo32 && e.uncompressedSize < TwoTo32
    && |e.name| < TwoTo16 && |e.extra| < TwoTo16
  }

  function LocalHeader(e: LocalEntry): (h: seq<Octet>)
    requires EncodableLocal(e)
    ensures |h| == LocalHeaderSize
  {
    seq(LocalHeaderSize, i requires 0 <= i < LocalHeaderSize =>
      if i < 4 then LocalSigBytes[i]
      else if i < 8 then e.skipped1[i - 4]
      else if i < 10 then LE16(e.compressionMethod)[i - 8]
      else if i < 18 then e.skipped2[i - 10]
      else if i < 22 then LE32(e.compressedSize)[i - 18]
      else if i < 26 then LE32(e.uncompressedSize)[i - 22]
      else if i < 28 then LE16(|e.name|)[i - 26]
      else LE16(|e.extra|)[i - 28])
  }

  function LocalRecord(e: LocalEntry): (rec: seq<Octet>)
    requires EncodableLocal(e)
    ensures |rec| == LocalHeaderSize + |e.name| + |e.extra|
  {
    LocalHeader(e) + (e.name + e.extra)
  }

  /** A written local header reads back field by field. */
  lemma LocalRecordFields(pre: seq<Octet>, e: LocalEntry, contents: seq<Octet>)
    requires EncodableLocal(e)
    ensures var data := pre + LocalRecord(e) + contents;
      var p := |pre|;
      && p + LocalHeaderSize + |e.name| + |e.extra| <= |data|
      && U32At(data, p) == LocalHeaderSig
      && U16At(data, p + 8) == e.compressionMethod
      && U32At(data, p + 18) == e.compressedSize
      && U16At(data, p + 26) == |e.name|
      && U16At(data, p + 28) == |e.extra|
  {
    var h := LocalHeader(e);
    var t := e.name + e.extra;
    assert h[..4] == LocalSigBytes;
    SignatureAt(pre, h, t, contents, LocalSigBytes);
    SignatureValues(pre + LocalRecord(e) + contents, |pre|);
    FieldAt16(pre, h, t, contents, 8, e.compressionMethod);
    FieldAt32(pre, h, t, contents, 18, e.compressedSize);
    FieldAt16(pre, h, t, contents, 26, |e.name|);
    FieldAt16(pre, h, t, contents, 28, |e.extra|);
  }

  /** Opening a file whose local header was written at filePos finds its
      data right after the header, name and extra field. */
  lemma OpenFileOfRecord(pre: seq<Octet>, e: LocalEntry, contents: seq<Octet>, id: Iterator)
    requires EncodableLocal(e) && id.filePos == |pre|
    ensures OpenFile(pre + LocalRecord(e) + contents, id)
      == Success(FileData(e.compressionMethod, |pre| + |LocalRecord(e)|, e.compressedSize))
  {
    LocalRecordFields(pre, e, contents);
  }
}

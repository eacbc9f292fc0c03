/** The ZIP archive reader's central-directory logic over the archive's
    bytes, read little-endian: locating the End of Central Directory
    record, walking the central directory's file headers, finding a file
    by name and locating a file's data behind its local header. Record
    layouts follow section 4.3 of PKWARE's APPNOTE.TXT; decompression is
    not modelled. */
module ZipArchive {
  import opened Bytes
  import opened Octets
  import opened Wrappers

  const LocalHeaderSig: nat := 0x04034b50
  const CentralHeaderSig: nat := 0x02014b50
  const DigitalSignatureSig: nat := 0x05054b50
  const EndOfDirectorySig: nat := 0x06054b50

  /** The signatures as they appear in the archive, little-endian. */
  const LocalSigBytes: seq<Octet> := [0x50, 0x4b, 0x03, 0x04]
  const CentralSigBytes: seq<Octet> := [0x50, 0x4b, 0x01, 0x02]
  const EndSigBytes: seq<Octet> := [0x50, 0x4b, 0x05, 0x06]

  /** Reading the signature bytes gives the signature. */
  lemma SignatureValues(data: seq<Octet>, i: nat)
    requires i + 4 <= |data|
    ensures data[i..i + 4] == LocalSigBytes ==> U32At(data, i) == LocalHeaderSig
    ensures data[i..i + 4] == CentralSigBytes ==> U32At(data, i) == CentralHeaderSig
    ensures data[i..i + 4] == EndSigBytes ==> U32At(data, i) == EndOfDirectorySig
  {
    assert data[i..i + 4][0] == data[i] && data[i..i + 4][1] == data[i + 1];
    assert data[i..i + 4][2] == data[i + 2] && data[i..i + 4][3] == data[i + 3];
  }

  /** The fixed sizes of the records (APPNOTE.TXT sections 4.3.7, 4.3.12
      and 4.3.16). */
  const LocalHeaderSize: nat := 30
  const CentralHeaderSize: nat := 46
  const EndOfDirectorySize: nat := 22

  /** How far back from the end the reader looks for the End of Central
      Directory signature. */
  const SearchWindow: nat := 70000

  /** Why an operation fails: initArchive's -1, -2 and -3, a read past the
      end of the archive, and the exceptions of the directory walk,
      findFile and openFile. */
  datatype ZipError =
    | NotZip
    | NoDirectory
    | BadDirectory
    | ReadFailure
    | BadEntryHeader
    | FileNotFound(name: seq<Octet>)
    | BadFileHeader

  /* ---------------------------------------------------------------- */
  /* Locating the End of Central Directory record                       */
  /* ---------------------------------------------------------------- */

  /** The bytes 50 4B 05 06 (the signature 0x06054b50 little-endian) at q. */
  predicate SigAt(data: seq<Octet>, q: int)
  {
    0 <= q && q + 4 <= |data|
    && data[q] == 0x50 && data[q + 1] == 0x4b && data[q + 2] == 0x05 && data[q + 3] == 0x06
  }

  lemma SigAtIsEndOfDirectory(data: seq<Octet>, q: nat)
    requires SigAt(data, q)
    ensures U32At(data, q) == EndOfDirectorySig
  {
  }

  /** The first position the backward search looks at. */
  function WindowStart(size: nat): (first: nat)
    ensures first <= size && (size > SearchWindow ==> size - first == SearchWindow)
  {
    if size > SearchWindow then size - SearchWindow else 0
  }

  /** The reference search: the greatest q in [lo, hi) with the signature at q. */
  function LastSignature(data: seq<Octet>, lo: nat, hi: nat): (r: Option<nat>)
    ensures r.Some? ==> lo <= r.value < hi && SigAt(data, r.value)
    ensures r.Some? ==> forall q :: r.value < q < hi ==> !SigAt(data, q)
    ensures r.None? ==> forall q :: lo <= q < hi ==> !SigAt(data, q)
    decreases hi
  {
    if hi <= lo then None
    else if SigAt(data, hi - 1) then Some(hi - 1)
    else LastSignature(data, lo, hi - 1)
  }

  /** The greatest signature position is unique. */
  lemma LastSignatureIs(data: seq<Octet>, lo: nat, hi: nat, q: nat)
    requires lo <= q < hi && SigAt(data, q) && forall q' :: q < q' < hi ==> !SigAt(data, q')
    ensures LastSignature(data, lo, hi) == Some(q)
  {
  }

  /** The search automaton's state after reading the bytes from `pos` on
      backwards: how much of 06 05 4B (read in that order) ends the bytes
      just read. */
  function StateAt(data: seq<Octet>, pos: nat): (state: int)
    requires pos <= |data|
    ensures 0 <= state <= 3
  {
    if pos + 3 <= |data| && data[pos] == 0x4b && data[pos + 1] == 0x05 && data[pos + 2] == 0x06 then 3
    else if pos + 2 <= |data| && data[pos] == 0x05 && data[pos + 1] == 0x06 then 2
    else if pos + 1 <= |data| && data[pos] == 0x06 then 1
    else 0
  }

  /** One transition of the automaton; state 4 means the signature is found.
      A stray 06 always restarts the match at state 1; every other byte
      advances the match only if it is the next signature byte. */
  function Step(state: int, b: Octet): (next: int)
    ensures 0 <= state <= 3 ==> 0 <= next <= 4
    ensures 0 <= state <= 3 ==> (next == 1 <==> b == 0x06)
    ensures 0 <= state <= 3 ==> (next == 2 <==> state == 1 && b == 0x05)
    ensures 0 <= state <= 3 ==> (next == 3 <==> state == 2 && b == 0x4b)
    ensures 0 <= state <= 3 ==> (next == 4 <==> state == 3 && b == 0x50)
  {
    if state == 0 then (if b == 0x06 then 1 else 0)
    else if state == 1 then (if b == 0x05 then 2 else if b != 0x06 then 0 else 1)
    else if state == 2 then (if b == 0x4b then 3 else if b == 0x06 then 1 else 0)
    else (if b == 0x50 then 4 else if b == 0x06 then 1 else 0)
  }

  /** Reading one more byte backwards moves the automaton to the state of
      the longer suffix, or to 4 exactly when the signature starts there. */
  lemma StepTracks(data: seq<Octet>, pos: nat)
    requires 1 <= pos <= |data|
    ensures Step(StateAt(data, pos), data[pos - 1]) == if SigAt(data, pos - 1) then 4 else StateAt(data, pos - 1)
  {
  }

  /** initArchive's backward search: 256-byte chunks are read from the end
      towards the start of the search window, and the automaton's state
      carries over from one chunk to the next. It finds the last signature
      whose bytes all lie in the window. */
  method LocateEndOfDirectory(data: seq<Octet>) returns (r: Option<nat>)
    ensures r == LastSignature(data, WindowStart(|data|), |data|)
  {
    var size := |data|;
    var firstReadPos := WindowStart(size);
    var readPos: nat := size;
    var rbPtr: nat := 0;
    var state := 0;
    while state != 4
      invariant firstReadPos <= readPos && readPos + rbPtr <= size && rbPtr <= 256
      invariant 0 <= state <= 4
      invariant state < 4 ==> state == StateAt(data, readPos + rbPtr)
      invariant state < 4 ==> forall q :: readPos + rbPtr <= q ==> !SigAt(data, q)
      invariant state == 4 ==> SigAt(data, readPos + rbPtr)
      invariant state == 4 ==> forall q :: readPos + rbPtr < q ==> !SigAt(data, q)
      decreases readPos + rbPtr, if state == 4 then 0 else 1
    {
      if rbPtr == 0 {
        var readSize := 256;
        if readPos - firstReadPos < readSize {
          readSize := readPos - firstReadPos;
        }
        if readSize == 0 {
          return None;
        }
        readPos := readPos - readSize;
        rbPtr := readSize;
      }
      rbPtr := rbPtr - 1;
      StepTracks(data, readPos + rbPtr + 1);
      state := Step(state, data[readPos + rbPtr]);
    }
    r := Some(readPos + rbPtr);
    LastSignatureIs(data, firstReadPos, size, readPos + rbPtr);
  }

  /** Where the central directory is. */
  datatype CentralDirectory = CentralDirectory(offset: nat, size: nat)

  /** The End of Central Directory record the reader accepts: the last
      signature in the window. */
  ghost predicate IsEndOfDirectory(data: seq<Octet>, q: int)
  {
    WindowStart(|data|) <= q && SigAt(data, q) && forall q' :: q < q' ==> !SigAt(data, q')
  }

  /** The checks on the record found at q: its signature (always there,
      as the search found it), then the directory must end where the
      record begins and the record with its comment must end the archive. */
  function ReadEndOfDirectory(data: seq<Octet>, q: nat): (r: Result<CentralDirectory, ZipError>)
    requires q + 4 <= |data|
    ensures r.Success? ==>
      && q + EndOfDirectorySize <= |data| && U32At(data, q) == EndOfDirectorySig
      && r.value.offset + r.value.size == q
      && r.value.size == U32At(data, q + 12) && r.value.offset == U32At(data, q + 16)
      && q + EndOfDirectorySize + U16At(data, q + 20) == |data|
    ensures r.Failure? ==> r.error == ReadFailure || r.error == BadDirectory
  {
    if U32At(data, q) != EndOfDirectorySig then Failure(BadDirectory)
    else if q + EndOfDirectorySize > |data| then Failure(ReadFailure)
    else
      var cdSize := U32At(data, q + 12);
      var cdOffset := U32At(data, q + 16);
      var commentLength := U16At(data, q + 20);
      if cdOffset + cdSize != q || q + EndOfDirectorySize + commentLength != |data| then Failure(BadDirectory)
      else Success(CentralDirectory(cdOffset, cdSize))
  }

  /** initArchive: the first local header's signature, the backward search,
      then the record's consistency. */
  function InitArchive(data: seq<Octet>): (r: Result<CentralDirectory, ZipError>)
    ensures r == Failure(NotZip) <==> |data| >= 4 && U32At(data, 0) != LocalHeaderSig
    ensures r == Failure(NoDirectory) <==>
      |data| >= 4 && U32At(data, 0) == LocalHeaderSig
      && forall q :: WindowStart(|data|) <= q ==> !SigAt(data, q)
    ensures r.Success? ==>
      && |data| >= 4 && U32At(data, 0) == LocalHeaderSig
      && IsEndOfDirectory(data, r.value.offset + r.value.size)
      && r.value.offset + r.value.size + EndOfDirectorySize <= |data|
    ensures r.Success? ==> r == ReadEndOfDirectory(data, r.value.offset + r.value.size)
  {
    if |data| < 4 then Failure(ReadFailure)
    else if U32At(data, 0) != LocalHeaderSig then Failure(NotZip)
    else match LastSignature(data, WindowStart(|data|), |data|)
      case None => Failure(NoDirectory)
      case Some(q) => ReadEndOfDirectory(data, q)
  }

  /* ---------------------------------------------------------------- */
  /* Walking the central directory                                      */
  /* ---------------------------------------------------------------- */

  /** A directory iterator: the file's identity (local header position and
      sizes), its name as stored, and where the next header starts; a
      nextEntryPos of 0 marks the iterator past the last entry. */
  datatype Iterator = Iterator(filePos: int, compressedSize: nat, uncompressedSize: nat, name: seq<Octet>, nextEntryPos: nat)

  predicate IsValid(it: Iterator)
  {
    it.nextEntryPos != 0
  }

  /** ~Offset(0), the file position of an invalidated iterator. */
  const NoFilePos: int := -1

  /** The iterator readDirectory starts from, before its first entry: no
      file yet, the next header at the directory's start. It is valid
      unless that position is 0, where the walk would end at once. */
  function StartAt(directoryPos: nat): (it: Iterator)
    ensures IsValid(it) <==> directoryPos != 0
    ensures it.filePos == NoFilePos && it.name == [] && it.nextEntryPos == directoryPos
  {
    Iterator(NoFilePos, 0, 0, [], directoryPos)
  }

  /** getNextEntry: a fixed point past the end; a digital signature or the
      End of Central Directory record ends the walk; any other header than
      a central file header is an error; otherwise the entry's fields,
      with the name, extra field and comment skipped over. */
  function GetNextEntry(data: seq<Octet>, it: Iterator): (r: Result<Iterator, ZipError>)
    ensures !IsValid(it) ==> r == Success(it)
    ensures r.Failure? ==> r.error == ReadFailure || r.error == BadEntryHeader
    ensures r == Failure(BadEntryHeader) <==>
      IsValid(it) && it.nextEntryPos + 4 <= |data|
      && U32At(data, it.nextEntryPos) != CentralHeaderSig
      && U32At(data, it.nextEntryPos) != DigitalSignatureSig
      && U32At(data, it.nextEntryPos) != EndOfDirectorySig
    ensures IsValid(it) && r.Success? && !IsValid(r.value) ==>
      && it.nextEntryPos + 4 <= |data|
      && (U32At(data, it.nextEntryPos) == DigitalSignatureSig || U32At(data, it.nextEntryPos) == EndOfDirectorySig)
      && r.value.filePos == NoFilePos && r.value.name == []
    ensures IsValid(it) && r.Success? && IsValid(r.value) ==>
      && var s := it.nextEntryPos;
         s + CentralHeaderSize <= |data| && U32At(data, s) == CentralHeaderSig
         && |r.value.name| == U16At(data, s + 28)
         && r.value.nextEntryPos == s + CentralHeaderSize + U16At(data, s + 28) + U16At(data, s + 30) + U16At(data, s + 32)
         && s < r.value.nextEntryPos <= |data|
  {
    if !IsValid(it) then Success(it)
    else
      var s := it.nextEntryPos;
      if s + 4 > |data| then Failure(ReadFailure)
      else
        var header := U32At(data, s);
        if header == DigitalSignatureSig || header == EndOfDirectorySig then
          Success(it.(filePos := NoFilePos, nextEntryPos := 0, name := []))
        else if header != CentralHeaderSig then Failure(BadEntryHeader)
        else if s + CentralHeaderSize > |data| then Failure(ReadFailure)
        else ReadCentralEntry(data, s)
  }

  /** The fields of the central file header at s, whose signature has
      been checked: name, extra field and comment must lie in the archive. */
  function ReadCentralEntry(data: seq<Octet>, s: nat): (r: Result<Iterator, ZipError>)
    requires s + CentralHeaderSize <= |data|
    ensures r.Failure? ==> r.error == ReadFailure
    ensures r.Success? ==>
      && IsValid(r.value)
      && |r.value.name| == U16At(data, s + 28)
      && r.value.nextEntryPos == s + CentralHeaderSize + U16At(data, s + 28) + U16At(data, s + 30) + U16At(data, s + 32)
      && s < r.value.nextEntryPos <= |data|
  {
    var compressedSize := U32At(data, s + 20);
    var uncompressedSize := U32At(data, s + 24);
    var nameLength := U16At(data, s + 28);
    var extraLength := U16At(data, s + 30);
    var commentLength := U16At(data, s + 32);
    var localHeaderOffset := U32At(data, s + 42);
    var next := s + CentralHeaderSize + nameLength + extraLength + commentLength;
    if next > |data| then Failure(ReadFailure)
    else
      var name := data[s + CentralHeaderSize..s + CentralHeaderSize + nameLength];
      Success(Iterator(localHeaderOffset, compressedSize, uncompressedSize, name, next))
  }

  /** Past a central file header's signature, getNextEntry reads its fields. */
  lemma GetNextEntryReads(data: seq<Octet>, it: Iterator)
    requires IsValid(it)
    requires it.nextEntryPos + CentralHeaderSize <= |data| && U32At(data, it.nextEntryPos) == CentralHeaderSig
    ensures GetNextEntry(data, it) == ReadCentralEntry(data, it.nextEntryPos)
  {
    var s := it.nextEntryPos;
    assert U32At(data, s) != DigitalSignatureSig;
    assert U32At(data, s) != EndOfDirectorySig;
  }

  /** What a walk over the central directory produced: the entries read,
      in order, and the error that stopped it, if any. */
  datatype Walk = Walk(entries: seq<Iterator>, error: Option<ZipError>)

  /** The entries a loop `for (it; it.isValid(); getNextEntry(it))` sees,
      starting from the iterator before the first one. */
  function WalkFrom(data: seq<Octet>, it: Iterator): (w: Walk)
    ensures forall i :: 0 <= i < |w.entries| ==> IsValid(w.entries[i])
    decreases if it.nextEntryPos <= |data| then |data| - it.nextEntryPos + 1 else 0
  {
    match GetNextEntry(data, it)
    case Failure(e) => Walk([], Some(e))
    case Success(n) =>
      if !IsValid(n) || !IsValid(it) then Walk([], None)
      else
        var rest := WalkFrom(data, n);
        Walk([n] + rest.entries, rest.error)
  }

  /** readDirectory and the walk over the whole central directory: the
      first getNextEntry from the directory's start, and the walk on from
      what it returned. */
  function ReadDirectory(data: seq<Octet>, dir: CentralDirectory): (w: Walk)
    ensures dir.offset != 0 ==> w == WalkAfter(data, GetNextEntry(data, StartAt(dir.offset)))
    ensures dir.offset == 0 ==> w == Walk([], None)
  {
    if dir.offset != 0 then WalkFromIsWalkAfter(data, StartAt(dir.offset)); WalkFrom(data, StartAt(dir.offset))
    else WalkFrom(data, StartAt(dir.offset))
  }

  /** strcmp's view of a stored name: the bytes before the first NUL. */
  function CString(s: seq<Octet>): (c: seq<Octet>)
    ensures |c| <= |s| && c == s[..|c|] && 0 !in c
    ensures |c| < |s| ==> s[|c|] == 0
  {
    if |s| == 0 || s[0] == 0 then [] else [s[0]] + CString(s[1..])
  }

  /** The first entry whose name compares equal to `query`. */
  function FirstMatch(entries: seq<Iterator>, query: seq<Octet>): (r: Option<nat>)
    ensures r.Some? ==> r.value < |entries| && CString(entries[r.value].name) == CString(query)
    ensures r.Some? ==> forall i :: 0 <= i < r.value ==> CString(entries[i].name) != CString(query)
    ensures r.None? ==> forall i :: 0 <= i < |entries| ==> CString(entries[i].name) != CString(query)
  {
    if |entries| == 0 then None
    else if CString(entries[0].name) == CString(query) then Some(0)
    else match FirstMatch(entries[1..], query)
      case None => None
      case Some(i) => Some(i + 1)
  }

  /** findFile's outcome on a walk: the first matching entry; failing that
      the walk's error; failing that FileNotFoundError. */
  function FindIn(w: Walk, query: seq<Octet>): (r: Result<Iterator, ZipError>)
    ensures r.Success? ==> r.value in w.entries && CString(r.value.name) == CString(query)
    ensures r.Failure? <==> forall i :: 0 <= i < |w.entries| ==> CString(w.entries[i].name) != CString(query)
    ensures r.Failure? ==> r.error == if w.error.Some? then w.error.value else FileNotFound(query)
  {
    match FirstMatch(w.entries, query)
    case Some(i) => Success(w.entries[i])
    case None => if w.error.Some? then Failure(w.error.value) else Failure(FileNotFound(query))
  }

  /** The walk that continues from the outcome of one getNextEntry. */
  function WalkAfter(data: seq<Octet>, res: Result<Iterator, ZipError>): (w: Walk)
    ensures res.Failure? ==> w == Walk([], Some(res.error))
    ensures res.Success? ==> (w.entries != [] <==> IsValid(res.value))
    ensures res.Success? && w.entries != [] ==> w.entries[0] == res.value
    ensures forall i :: 0 <= i < |w.entries| ==> IsValid(w.entries[i])
  {
    match res
    case Failure(e) => Walk([], Some(e))
    case Success(n) =>
      if !IsValid(n) then Walk([], None)
      else var rest := WalkFrom(data, n); Walk([n] + rest.entries, rest.error)
  }

  lemma WalkFromIsWalkAfter(data: seq<Octet>, it: Iterator)
    requires IsValid(it)
    ensures WalkFrom(data, it) == WalkAfter(data, GetNextEntry(data, it))
  {
  }

  /** Skipping an entry that does not match leaves findFile's outcome. */
  lemma FindInSkip(n: Iterator, rest: Walk, query: seq<Octet>)
    requires CString(n.name) != CString(query)
    ensures FindIn(Walk([n] + rest.entries, rest.error), query) == FindIn(rest, query)
  {
    assert ([n] + rest.entries)[1..] == rest.entries;
  }

  /** findFile: walks the central directory and stops at the first entry
      whose name equals the query; an entry that is never reached because
      the walk fails first makes the whole call fail. */
  method FindFile(data: seq<Octet>, dir: CentralDirectory, query: seq<Octet>) returns (r: Result<Iterator, ZipError>)
    ensures r == FindIn(ReadDirectory(data, dir), query)
    ensures r.Success? ==> CString(r.value.name) == CString(query) && IsValid(r.value)
    ensures r.Failure? && r.error.FileNotFound? ==> r.error.name == query
  {
    var res := GetNextEntry(data, StartAt(dir.offset));
    ghost var target := FindIn(ReadDirectory(data, dir), query);
    if IsValid(StartAt(dir.offset)) {
      WalkFromIsWalkAfter(data, StartAt(dir.offset));
    } else {
      assert res == Success(StartAt(dir.offset));
    }
    while true
      invariant FindIn(WalkAfter(data, res), query) == target
      invariant res.Success? && !IsValid(res.value) ==> target == Failure(FileNotFound(query))
      invariant res.Failure? ==> res.error == ReadFailure || res.error == BadEntryHeader
      decreases if res.Failure? || !IsValid(res.value) then 0
        else if res.value.nextEntryPos <= |data| then |data| - res.value.nextEntryPos + 2 else 1
    {
      if res.Failure? {
        return Failure(res.error);
      }
      var it := res.value;
      if !IsValid(it) {
        return Failure(FileNotFound(query));
      }
      if CString(it.name) == CString(query) {
        return Success(it);
      }
      FindInSkip(it, WalkFrom(data, it), query);
      WalkFromIsWalkAfter(data, it);
      res := GetNextEntry(data, it);
    }
  }

  /* ---------------------------------------------------------------- */
  /* Opening a file                                                     */
  /* ---------------------------------------------------------------- */

  /** What openFile hands to the decompressing reader: the compression
      method, where the file's data starts and how many bytes it has. */
  datatype FileData = FileData(compressionMethod: nat, dataPos: nat, compressedSize: nat)

  /** openFile: checks the local header's signature, reads the method (at
      offset 8), the compressed size (at 18) and the name and extra field
      lengths (at 26 and 28), and skips the name and extra field. */
  function OpenFile(data: seq<Octet>, id: Iterator): (r: Result<FileData, ZipError>)
    ensures r == Failure(BadFileHeader) <==>
      0 <= id.filePos && id.filePos + 4 <= |data| && U32At(data, id.filePos) != LocalHeaderSig
    ensures r.Success? ==>
      && var p := id.filePos;
         0 <= p && p + LocalHeaderSize <= |data| && U32At(data, p) == LocalHeaderSig
         && r.value.compressionMethod == U16At(data, p + 8)
         && r.value.compressedSize == U32At(data, p + 18)
         && r.value.dataPos == p + LocalHeaderSize + U16At(data, p + 26) + U16At(data, p + 28)
         && r.value.dataPos <= |data|
  {
    if id.filePos < 0 || id.filePos + 4 > |data| then Failure(ReadFailure)
    else
      var p := id.filePos;
      if U32At(data, p) != LocalHeaderSig then Failure(BadFileHeader)
      else if p + LocalHeaderSize > |data| then Failure(ReadFailure)
      else
        var compression := U16At(data, p + 8);
        var compressedSize := U32At(data, p + 18);
        var dataPos := p + LocalHeaderSize + U16At(data, p + 26) + U16At(data, p + 28);
        if dataPos > |data| then Failure(ReadFailure)
        else Success(FileData(compression, dataPos, compressedSize))
  }

}

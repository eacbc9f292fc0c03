/** A directory inside a ZIP archive: the listing the constructor collects
    from the central directory, the cursor that steps through it, and the
    path arithmetic of the name, the parent and a subdirectory. Paths and
    names are byte strings; the directory's path always starts with '/'. */
module ZipDirectory {
  import opened Octets
  import opened Wrappers
  import opened ZipArchive

  const Slash: Octet := 0x2f

  /* ---------------------------------------------------------------- */
  /* C strings                                                          */
  /* ---------------------------------------------------------------- */

  /** A string without NUL is its own C string. */
  lemma {:induction false} CStringNoNul(s: seq<Octet>)
    requires 0 !in s
    ensures CString(s) == s
    decreases |s|
  {
    if |s| > 0 {
      assert s[0] in s;
      assert forall i :: 0 <= i < |s| - 1 ==> s[1..][i] == s[i + 1];
      CStringNoNul(s[1..]);
    }
  }

  /** Reading a NUL-terminated buffer from position k, inside the C
      string it holds, gives the rest of that C string. */
  lemma {:induction false} CStringFrom(s: seq<Octet>, k: nat)
    requires k <= |CString(s)|
    ensures k <= |s| && CString((s + [0])[k..]) == CString(s)[k..]
    decreases |s|
  {
    if |s| == 0 {
      assert (s + [0])[k..] == [0];
    } else if s[0] == 0 {
      assert (s + [0])[k..] == s + [0];
    } else if k == 0 {
      assert (s + [0])[1..] == s[1..] + [0];
      CStringFrom(s[1..], 0);
    } else {
      assert (s + [0])[k..] == (s[1..] + [0])[k - 1..];
      CStringFrom(s[1..], k - 1);
    }
  }

  /** `strncmp(a, b, n) == 0` on NUL-terminated buffers: the two C strings
      agree on their first n characters, a common NUL ending the
      comparison early. */
  predicate StrNEqual(a: seq<Octet>, b: seq<Octet>, n: nat)
  {
    var ca, cb := CString(a), CString(b);
    ca[..if n < |ca| then n else |ca|] == cb[..if n < |cb| then n else |cb|]
  }

  /** Byte i of a buffer; past its end the read yields NUL (reachable only
      for a path holding a NUL). */
  function At(buf: seq<Octet>, i: nat): Octet
  {
    if i < |buf| then buf[i] else 0
  }

  /* ---------------------------------------------------------------- */
  /* The constructor's filter                                           */
  /* ---------------------------------------------------------------- */

  /** The position of the first '/' in t, or |t| if there is none. */
  function SlashIndex(t: seq<Octet>): (e: nat)
    ensures e <= |t|
    ensures forall i :: 0 <= i < e ==> t[i] != Slash
    ensures e < |t| ==> t[e] == Slash
  {
    if |t| == 0 || t[0] == Slash then 0 else 1 + SlashIndex(t[1..])
  }

  lemma SlashIndexIsFirst(t: seq<Octet>, e: nat)
    requires e <= |t| && (forall i :: 0 <= i < e ==> t[i] != Slash) && (e < |t| ==> t[e] == Slash)
    ensures SlashIndex(t) == e
  {
  }

  /** The name scan on the part of an entry name after the directory
      prefix: empty is skipped, no '/' is a file, exactly one '/' at the
      end is a subdirectory, anything deeper is skipped. The result is
      whether it is a file and the name it is listed under. */
  function Split(rest: seq<Octet>): (r: Option<(bool, seq<Octet>)>)
    ensures r.Some? ==> Slash !in r.value.1
  {
    if |rest| == 0 then None
    else
      var e := SlashIndex(rest);
      if e == |rest| then Some((true, rest))
      else if e + 1 == |rest| then Some((false, rest[..e]))
      else None
  }

  /** The constructor's test of one stored entry name against the
      directory's path: the name must start with the path without its
      leading '/', followed by '/' unless the directory is the root; the
      remainder is scanned by Split. */
  function Classify(path: seq<Octet>, name: seq<Octet>): (r: Option<(bool, seq<Octet>)>)
    requires |path| >= 1
    ensures r.Some? ==> Slash !in r.value.1
  {
    var n := |path|;
    var buf := name + [0];
    if !(StrNEqual(path[1..], name, n - 1) && (n == 1 || At(buf, n - 1) == Slash)) then None
    else
      var start := if n > 1 then n else 0;
      if start > |buf| then None
      else Split(CString(buf[start..]))
  }

  /** What an entry name must start with to lie in the directory. */
  function DirPrefix(path: seq<Octet>): (p: seq<Octet>)
    requires |path| >= 1
    ensures |path| > 1 ==> |p| == |path| && p[..|path| - 1] == path[1..] && p[|path| - 1] == Slash
    ensures |path| == 1 ==> p == []
  {
    if |path| == 1 then [] else path[1..] + [Slash]
  }

  /** The prefix test and name scan on a stored name's C string cn, with
      the directory prefix p. */
  function PrefixSplit(cn: seq<Octet>, p: seq<Octet>): Option<(bool, seq<Octet>)>
  {
    if |p| <= |cn| && cn[..|p|] == p then Split(cn[|p|..]) else None
  }

  /** The filter as written is the prefix test followed by the name scan
      on the stored name's C string. */
  lemma ClassifyByPrefix(path: seq<Octet>, name: seq<Octet>)
    requires |path| >= 1 && 0 !in path
    ensures Classify(path, name) == PrefixSplit(CString(name), DirPrefix(path))
  {
    var n := |path|;
    var buf := name + [0];
    var cn, p := CString(name), DirPrefix(path);
    assert path[1..] == path[1..];
    CStringNoNul(path[1..]);
    if n == 1 {
      CStringFrom(name, 0);
      assert buf[0..] == buf;
    } else {
      if |p| <= |cn| && cn[..|p|] == p {
        assert cn[..n - 1] == path[1..];
        assert cn[n - 1] == Slash;
        assert name[n - 1] == cn[n - 1];
        assert StrNEqual(path[1..], name, n - 1) && At(buf, n - 1) == Slash;
        CStringFrom(name, n);
      } else if |cn| < n - 1 || cn[..n - 1] != path[1..] {
        assert !StrNEqual(path[1..], name, n - 1);
      } else if |cn| == n - 1 {
        assert At(buf, n - 1) == 0;
      } else {
        assert cn[..|p|] == cn[..n - 1] + [cn[n - 1]];
        assert At(buf, n - 1) == cn[n - 1] != Slash;
      }
    }
  }
  lemma PrefixSplitFile(cn: seq<Octet>, p: seq<Octet>, c: seq<Octet>)
    ensures PrefixSplit(cn, p) == Some((true, c)) <==> cn == p + c && |c| > 0 && Slash !in c
  {
    if cn == p + c && |c| > 0 && Slash !in c {
      assert cn[..|p|] == p && cn[|p|..] == c;
      SlashIndexIsFirst(c, |c|);
    }
    if PrefixSplit(cn, p) == Some((true, c)) {
      assert cn == cn[..|p|] + cn[|p|..];
    }
  }

  lemma PrefixSplitSubdirectory(cn: seq<Octet>, p: seq<Octet>, c: seq<Octet>)
    ensures PrefixSplit(cn, p) == Some((false, c)) <==> cn == p + c + [Slash] && Slash !in c
  {
    if cn == p + c + [Slash] && Slash !in c {
      SubdirectorySplits(cn, p, c);
    }
    if PrefixSplit(cn, p) == Some((false, c)) {
      SplitIsSubdirectory(cn, p, c);
    }
  }

  lemma SubdirectorySplits(cn: seq<Octet>, p: seq<Octet>, c: seq<Octet>)
    requires cn == p + c + [Slash] && Slash !in c
    ensures PrefixSplit(cn, p) == Some((false, c))
  {
    var rest := c + [Slash];
    assert cn[..|p|] == p && cn[|p|..] == rest;
    SlashIndexIsFirst(rest, |c|);
    assert rest[..|c|] == c;
  }

  lemma SplitIsSubdirectory(cn: seq<Octet>, p: seq<Octet>, c: seq<Octet>)
    requires PrefixSplit(cn, p) == Some((false, c))
    ensures cn == p + c + [Slash] && Slash !in c
  {
    var rest := cn[|p|..];
    var e := SlashIndex(rest);
    assert rest == rest[..e] + [Slash];
    assert cn == cn[..|p|] + rest;
  }

  lemma PrefixSplitDeeper(cn: seq<Octet>, p: seq<Octet>, c: seq<Octet>, d: seq<Octet>)
    requires cn == p || (cn == p + c + [Slash] + d && |d| > 0)
    ensures PrefixSplit(cn, p).None?
  {
    if cn != p {
      var rest := cn[|p|..];
      assert rest == c + [Slash] + d;
      assert rest[|c|] == Slash;
      var e := SlashIndex(rest);
      assert e <= |c|;
    }
  }

  /** An entry is listed as a file named c iff its name is the directory
      prefix followed by c, a non-empty name without '/'. */
  lemma ClassifyFile(path: seq<Octet>, name: seq<Octet>, c: seq<Octet>)
    requires |path| >= 1 && 0 !in path
    ensures Classify(path, name) == Some((true, c)) <==>
      CString(name) == DirPrefix(path) + c && |c| > 0 && Slash !in c
  {
    ClassifyByPrefix(path, name);
    PrefixSplitFile(CString(name), DirPrefix(path), c);
  }

  /** An entry is listed as a subdirectory named c iff its name is the
      directory prefix followed by c and one '/', with no '/' in c. */
  lemma ClassifySubdirectory(path: seq<Octet>, name: seq<Octet>, c: seq<Octet>)
    requires |path| >= 1 && 0 !in path
    ensures Classify(path, name) == Some((false, c)) <==>
      CString(name) == DirPrefix(path) + c + [Slash] && Slash !in c
  {
    ClassifyByPrefix(path, name);
    PrefixSplitSubdirectory(CString(name), DirPrefix(path), c);
  }

  /** The directory itself and anything below its subdirectories are not
      listed. */
  lemma SelfAndDeeperExcluded(path: seq<Octet>, name: seq<Octet>, c: seq<Octet>, d: seq<Octet>)
    requires |path| >= 1 && 0 !in path
    requires CString(name) == DirPrefix(path) || (CString(name) == DirPrefix(path) + c + [Slash] + d && |d| > 0)
    ensures Classify(path, name).None?
  {
    ClassifyByPrefix(path, name);
    PrefixSplitDeeper(CString(name), DirPrefix(path), c, d);
  }

  /* ---------------------------------------------------------------- */
  /* The listing                                                        */
  /* ---------------------------------------------------------------- */

  /** A listed entry: whether it is a file, the archive entry it stands
      for, and its name inside the directory. */
  datatype Entry = Entry(isFile: bool, id: Iterator, name: seq<Octet>)

  /** The entries the constructor collects from the walk, in the order of
      the central directory. */
  function Listing(entries: seq<Iterator>, path: seq<Octet>): (es: seq<Entry>)
    requires |path| >= 1
    ensures |es| <= |entries|
    ensures forall k :: 0 <= k < |es| ==> Slash !in es[k].name
  {
    if |entries| == 0 then []
    else
      var head := match Classify(path, entries[0].name)
        case Some(fc) => [Entry(fc.0, entries[0], fc.1)]
        case None => [];
      head + Listing(entries[1..], path)
  }

  /** An entry is listed iff its archive entry was walked and the filter
      accepts that entry's name with that kind and short name. */
  lemma {:induction false} InListing(entries: seq<Iterator>, path: seq<Octet>, e: Entry)
    requires |path| >= 1
    ensures e in Listing(entries, path) <==>
      e.id in entries && Classify(path, e.id.name) == Some((e.isFile, e.name))
    decreases |entries|
  {
    if |entries| > 0 {
      InListing(entries[1..], path, e);
      assert entries == [entries[0]] + entries[1..];
    }
  }

  /** A directory: its path, its listing and the cursor, an index into the
      listing whose value |entries| stands for end(). */
  datatype Directory = Directory(path: seq<Octet>, entries: seq<Entry>, cursor: nat)

  ghost predicate Valid(d: Directory)
  {
    |d.path| >= 1 && d.path[0] == Slash && d.cursor <= |d.entries|
  }

  predicate AtEnd(d: Directory)
  {
    d.cursor == |d.entries|
  }

  /** The path the constructor works with: an initial '/' is added unless
      there is one. */
  function AbsolutePath(s: seq<Octet>): (p: seq<Octet>)
    ensures |p| >= 1 && p[0] == Slash
    ensures |s| <= |p| <= |s| + 1 && p[|p| - |s|..] == s
    ensures |s| >= 1 && s[0] == Slash ==> p == s
  {
    if |s| == 0 || s[0] != Slash then [Slash] + s else s
  }

  /** The constructor: the listing of the directory at the given path; a
      walk that fails makes the whole construction fail. The cursor starts
      at end(). */
  function Open(data: seq<Octet>, dir: CentralDirectory, pathName: seq<Octet>): (r: Result<Directory, ZipError>)
    ensures r.Failure? <==> ReadDirectory(data, dir).error.Some?
    ensures r.Failure? ==> r.error == ReadDirectory(data, dir).error.value
    ensures r.Success? ==>
      && Valid(r.value) && AtEnd(r.value)
      && r.value.path == AbsolutePath(pathName)
      && r.value.entries == Listing(ReadDirectory(data, dir).entries, AbsolutePath(pathName))
  {
    var path := AbsolutePath(pathName);
    var w := ReadDirectory(data, dir);
    if w.error.Some? then Failure(w.error.value)
    else
      var es := Listing(w.entries, path);
      Success(Directory(path, es, |es|))
  }

  /* ---------------------------------------------------------------- */
  /* The cursor                                                         */
  /* ---------------------------------------------------------------- */

  function Rewind(d: Directory): (r: Directory)
    requires Valid(d)
    ensures Valid(r) && AtEnd(r) && r.path == d.path && r.entries == d.entries
  {
    d.(cursor := |d.entries|)
  }

  /** readNextEntry: steps to the next entry, or from end() to the first;
      the result says whether the cursor is on an entry. */
  function ReadNextEntry(d: Directory): (r: (Directory, bool))
    requires Valid(d)
    ensures Valid(r.0) && r.0.path == d.path && r.0.entries == d.entries
    ensures r.1 <==> !AtEnd(r.0)
  {
    var c := if d.cursor != |d.entries| then d.cursor + 1 else 0;
    (d.(cursor := c), c != |d.entries|)
  }

  /** getEntryName: the name the listing reports at the cursor. */
  function GetEntryName(d: Directory): (n: seq<Octet>)
    requires Valid(d) && !AtEnd(d)
    ensures Names(d.entries)[d.cursor] == Some(n)
  {
    d.entries[d.cursor].name
  }

  function IsFileEntry(d: Directory): bool
    requires Valid(d) && !AtEnd(d)
  {
    d.entries[d.cursor].isFile
  }

  /** getEntryName and getEntryType report what the filter decided for
      the archive entry under the cursor: its short name and whether it is
      a file or a subdirectory. */
  lemma ListedEntryClassified(walked: seq<Iterator>, d: Directory)
    requires Valid(d) && !AtEnd(d) && d.entries == Listing(walked, d.path)
    ensures d.entries[d.cursor].id in walked
    ensures Classify(d.path, d.entries[d.cursor].id.name) == Some((IsFileEntry(d), GetEntryName(d)))
  {
    var e := d.entries[d.cursor];
    InListing(walked, d.path, e);
  }

  /** What k calls of readNextEntry see: the entry name after each call
      that returned true, None after each that returned false. */
  function Reads(d: Directory, k: nat): (r: seq<Option<seq<Octet>>>)
    requires Valid(d)
    ensures |r| == k
    decreases k
  {
    if k == 0 then []
    else
      var (d1, ok) := ReadNextEntry(d);
      [if ok then Some(GetEntryName(d1)) else None] + Reads(d1, k - 1)
  }

  function Names(es: seq<Entry>): (ns: seq<Option<seq<Octet>>>)
    ensures |ns| == |es| && forall i :: 0 <= i < |es| ==> ns[i] == Some(es[i].name)
  {
    if |es| == 0 then [] else [Some(es[0].name)] + Names(es[1..])
  }

  /** From entry i on, the calls visit the remaining entries in order and
      then return false once, back at end(). */
  lemma {:induction false} ReadsFrom(d: Directory, i: nat)
    requires Valid(d) && i <= |d.entries| && d.cursor == (if i == 0 then |d.entries| else i - 1)
    ensures Reads(d, |d.entries| - i + 1) == Names(d.entries[i..]) + [None]
    decreases |d.entries| - i
  {
    var d1 := ReadNextEntry(d).0;
    if i == |d.entries| {
      assert d.entries[i..] == [];
    } else {
      assert d1.cursor == i;
      ReadsFrom(d1, i + 1);
      assert d.entries[i..] == [d.entries[i]] + d.entries[i + 1..];
    }
  }

  /** After construction or rewind, |entries| + 1 calls list every entry
      name in order and then return false, leaving the cursor at end()
      again, so the next calls start over. */
  lemma ReadsCycle(d: Directory)
    requires Valid(d) && AtEnd(d)
    ensures Reads(d, |d.entries| + 1) == Names(d.entries) + [None]
  {
    ReadsFrom(d, 0);
    assert d.entries[0..] == d.entries;
  }

  /** readNextEntry returns false exactly when it steps from the last
      entry, or from end() of an empty listing, to end(). */
  lemma ReadNextEntryFalse(d: Directory)
    requires Valid(d)
    ensures !ReadNextEntry(d).1 <==> d.cursor + 1 == |d.entries| || |d.entries| == 0
  {
  }

  /* ---------------------------------------------------------------- */
  /* Names and parents                                                  */
  /* ---------------------------------------------------------------- */

  /** The last '/' of a path that starts with '/'. */
  function LastSlash(p: seq<Octet>): (k: nat)
    requires |p| >= 1 && p[0] == Slash
    ensures k < |p| && p[k] == Slash
    ensures forall j :: k < j < |p| ==> p[j] != Slash
    decreases |p|
  {
    if p[|p| - 1] == Slash then |p| - 1 else LastSlash(p[..|p| - 1])
  }

  /** getName: the path's last component. */
  function GetName(path: seq<Octet>): (name: seq<Octet>)
    requires |path| >= 1 && path[0] == Slash
    ensures Slash !in name && |name| < |path|
    ensures path[|path| - |name| - 1] == Slash && path[|path| - |name|..] == name
  {
    path[LastSlash(path) + 1..]
  }

  /** hasParent: every path but the root has a parent. */
  function HasParent(path: seq<Octet>): (b: bool)
    ensures |path| >= 1 && path[0] == Slash ==> (b <==> path != [Slash])
  {
    |path| > 1
  }

  /** getParent: none for the root; otherwise the path before its last
      component, without the separating '/' unless that '/' is the
      leading one. */
  function GetParentPath(path: seq<Octet>): (r: Option<seq<Octet>>)
    requires |path| >= 1 && path[0] == Slash
    ensures r.None? <==> !HasParent(path)
    ensures r.Some? ==> |r.value| >= 1 && r.value[0] == Slash && |r.value| < |path| && r.value == path[..|r.value|]
  {
    if |path| == 1 then None
    else
      var last := LastSlash(path) + 1;
      Some(path[..if last > 1 then last - 1 else last])
  }

  /** openDirectory's path for a subdirectory: the path, a '/' unless the
      path is the root, and the name. */
  function ChildPath(path: seq<Octet>, name: seq<Octet>): (p: seq<Octet>)
    requires |path| >= 1 && path[0] == Slash
    ensures |p| >= 1 && p[0] == Slash
    ensures |p| == |path| + (if |path| > 1 then 1 else 0) + |name|
    ensures p[..|path|] == path && p[|p| - |name|..] == name
  {
    path + (if |path| > 1 then [Slash] else []) + name
  }

  /** A subdirectory's parent is the directory it was opened from, and its
      name is the name it was opened with. */
  lemma ParentOfChild(path: seq<Octet>, name: seq<Octet>)
    requires |path| >= 1 && path[0] == Slash && |name| > 0 && Slash !in name
    ensures GetParentPath(ChildPath(path, name)) == Some(path)
    ensures GetName(ChildPath(path, name)) == name
  {
    var p := ChildPath(path, name);
    var sep := if |path| > 1 then |path| else 0;
    assert p[sep] == Slash;
    forall j | sep < j < |p|
      ensures p[j] != Slash
    {
      assert p[j] == name[j - sep - 1];
    }
    assert LastSlash(p) == sep;
  }

  /** Conversely a path not starting with two slashes is its parent's
      subdirectory of its own name. */
  lemma ChildOfParent(path: seq<Octet>)
    requires |path| > 1 && path[0] == Slash && path[1] != Slash
    ensures ChildPath(GetParentPath(path).value, GetName(path)) == path
  {
    var k := LastSlash(path);
    var parent := GetParentPath(path).value;
    var name := GetName(path);
    assert k != 1;
    if k > 0 {
      assert parent == path[..k];
      assert path == path[..k] + [Slash] + path[k + 1..];
    } else {
      assert parent == [Slash];
      assert path == [Slash] + path[1..];
    }
  }
}

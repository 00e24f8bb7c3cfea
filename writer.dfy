/**
 * create_archive: the signature once, then for every input path whose
 * stat succeeds a header built from its metadata and, when the path can
 * be opened, its contents copied in buffer-sized chunks.
 *
 * The filesystem is a value: stat(p) succeeds exactly when p is in
 * `meta`, and open(p, O_RDONLY) exactly when p is in `contents`.  The two
 * maps are independent, as the two calls are; a file may vanish or change
 * between them.
 */
module Writer {
  import opened Bytes
  import opened Format
  import opened Streams

  /** The fields of struct stat that the header copies. */
  datatype Stat = Stat(
    mode: u32,
    uid: u32,
    gid: u32,
    size: i64,
    atime: Timespec,
    mtime: Timespec,
    ctime: Timespec)

  datatype FileSystem = FileSystem(meta: map<Path, Stat>, contents: map<Path, seq<byte>>)

  /**
   * The name field as strncpy(field, p, MAX_NAME_LEN) leaves it: the
   * first MAX_NAME_LEN bytes of p, then NUL bytes up to the field's end.
   */
  function StrncpyField(p: Path): (field: seq<byte>)
    requires IsCString(p)
    ensures |field| == MAX_NAME_LEN
  {
    seq(MAX_NAME_LEN, i requires 0 <= i < MAX_NAME_LEN => if i < |p| then p[i] else 0)
  }

  /** The encoded header holds exactly the name field strncpy produces. */
  lemma StrncpyStoresName(p: Path)
    requires IsCString(p)
    ensures StrncpyField(p) == NameField(StoredName(p))
  {
    StoredNameOfCString(p);
    var f := StrncpyField(p);
    var g := NameField(StoredName(p));
    forall i | 0 <= i < MAX_NAME_LEN
      ensures f[i] == g[i]
    {
      if i < |StoredName(p)| {
        assert g[i] == g[..|StoredName(p)|][i];
      }
    }
  }

  function MakeHeader(p: Path, st: Stat): (h: Header)
    ensures ValidName(h.name)
  {
    Header(StoredName(p), st.mode, st.uid, st.gid, st.size, st.atime, st.mtime, st.ctime)
  }

  /** A reader decoding the header written for `p` sees the truncated path and every stat field. */
  lemma HeaderOfStat(p: Path, st: Stat)
    requires IsCString(p)
    ensures
      var h := DecodeHeader(EncodeHeader(MakeHeader(p, st)));
      && h.name == p[..Min(|p|, MAX_NAME_LEN)]
      && (|p| <= MAX_NAME_LEN ==> h.name == p)
      && h.size == st.size && h.mode == st.mode && h.uid == st.uid && h.gid == st.gid
      && h.atime == st.atime && h.mtime == st.mtime && h.ctime == st.ctime
  {
    StoredNameOfCString(p);
    DecodeEncodeHeader(MakeHeader(p, st));
  }

  /** The body create_archive copies for a path: its contents, or nothing when open fails. */
  function BodyOf(fs: FileSystem, p: Path): seq<byte>
  {
    if p in fs.contents then fs.contents[p] else []
  }

  /** The bytes one input path contributes. */
  function EntryImage(fs: FileSystem, p: Path): seq<byte>
  {
    if p !in fs.meta then []
    else EncodeHeader(MakeHeader(p, fs.meta[p])) + BodyOf(fs, p)
  }

  /** The bytes the paths contribute, in input order. */
  function EntriesImage(fs: FileSystem, paths: seq<Path>): seq<byte>
  {
    if paths == [] then []
    else EntriesImage(fs, paths[..|paths| - 1]) + EntryImage(fs, paths[|paths| - 1])
  }

  /** The whole archive create_archive writes. */
  function CreateImage(fs: FileSystem, paths: seq<Path>): (r: seq<byte>)
    ensures StartsWithSignature(r)
  {
    SIGNATURE + EntriesImage(fs, paths)
  }

  /** The entries create_archive means to write: one per path that stat accepts, in order. */
  function Archived(fs: FileSystem, paths: seq<Path>): (es: seq<Entry>)
    ensures |es| <= |paths|
  {
    if paths == [] then []
    else
      var p := paths[|paths| - 1];
      var before := Archived(fs, paths[..|paths| - 1]);
      if p in fs.meta then before + [Entry(MakeHeader(p, fs.meta[p]), BodyOf(fs, p))] else before
  }

  /** The input paths that stat accepts, in input order. */
  function Accepted(fs: FileSystem, paths: seq<Path>): (ps: seq<Path>)
    ensures |ps| <= |paths|
    ensures forall k :: 0 <= k < |ps| ==> ps[k] in fs.meta && ps[k] in paths
  {
    if paths == [] then []
    else
      var p := paths[|paths| - 1];
      var before := Accepted(fs, paths[..|paths| - 1]);
      assert forall k :: 0 <= k < |before| ==> before[k] in paths;
      if p in fs.meta then before + [p] else before
  }

  /** The k-th archived entry belongs to the k-th accepted path: its header from stat, its body from open. */
  lemma {:induction false} ArchivedAccepted(fs: FileSystem, paths: seq<Path>)
    ensures |Archived(fs, paths)| == |Accepted(fs, paths)|
    ensures forall k :: 0 <= k < |Accepted(fs, paths)| ==>
      var p := Accepted(fs, paths)[k];
      Archived(fs, paths)[k] == Entry(MakeHeader(p, fs.meta[p]), BodyOf(fs, p))
  {
    if paths != [] {
      ArchivedAccepted(fs, paths[..|paths| - 1]);
    }
  }

  /** Between stat and open nothing changed: every path stat accepts opens, with `size` bytes. */
  predicate Consistent(fs: FileSystem, paths: seq<Path>)
  {
    forall i :: 0 <= i < |paths| && paths[i] in fs.meta ==>
      paths[i] in fs.contents && |fs.contents[paths[i]]| == fs.meta[paths[i]].size
  }

  lemma {:induction false} EntriesImageIsSerialize(fs: FileSystem, paths: seq<Path>)
    ensures EntriesImage(fs, paths) == Serialize(Archived(fs, paths))
  {
    if paths != [] {
      var init := paths[..|paths| - 1];
      var p := paths[|paths| - 1];
      var before := EntriesImage(fs, init);
      assert EntriesImage(fs, paths) == before + EntryImage(fs, p);
      EntriesImageIsSerialize(fs, init);
      if p in fs.meta {
        var h := MakeHeader(p, fs.meta[p]);
        assert Archived(fs, paths) == Archived(fs, init) + [Entry(h, BodyOf(fs, p))];
        SerializeAppend(Archived(fs, init), Entry(h, BodyOf(fs, p)));
        Reassociate(before, EncodeHeader(h), BodyOf(fs, p), []);
      } else {
        assert before + [] == before;
      }
    }
  }

  lemma {:induction false} ArchivedWellFormed(fs: FileSystem, paths: seq<Path>)
    requires Consistent(fs, paths)
    ensures AllWellFormed(Archived(fs, paths))
  {
    if paths != [] {
      var init := paths[..|paths| - 1];
      assert Consistent(fs, init) by {
        forall i | 0 <= i < |init| && init[i] in fs.meta
          ensures init[i] in fs.contents && |fs.contents[init[i]]| == fs.meta[init[i]].size
        {
          assert init[i] == paths[i];
        }
      }
      ArchivedWellFormed(fs, init);
    }
  }

  /**
   * Round trip: when nothing changed between stat and open, a reader of
   * the created archive finds the signature and then exactly the entries
   * written, in input order, each with its full contents as body.
   */
  lemma CreateRoundTrip(fs: FileSystem, paths: seq<Path>)
    requires Consistent(fs, paths)
    ensures StartsWithSignature(CreateImage(fs, paths))
    ensures Walk(CreateImage(fs, paths), |SIGNATURE|) == Archived(fs, paths)
  {
    EntriesImageIsSerialize(fs, paths);
    ArchivedWellFormed(fs, paths);
    ImageRoundTrip(Archived(fs, paths));
  }

  /**
   * When open fails after stat succeeded, the header stays in the archive
   * with no body after it: a reader sees the header and an empty body
   * although the header promises `size` bytes.
   */
  lemma OpenFailureLeavesBareHeader(fs: FileSystem, p: Path)
    requires p in fs.meta && p !in fs.contents && fs.meta[p].size > 0
    ensures CreateImage(fs, [p]) == SIGNATURE + EncodeHeader(MakeHeader(p, fs.meta[p]))
    ensures Walk(CreateImage(fs, [p]), |SIGNATURE|) == [Entry(MakeHeader(p, fs.meta[p]), [])]
    ensures MakeHeader(p, fs.meta[p]).size > 0
  {
    var h := MakeHeader(p, fs.meta[p]);
    var hb := EncodeHeader(h);
    assert [p][..0] == [];
    assert EntriesImage(fs, [p]) == EntryImage(fs, p);
    var data := CreateImage(fs, [p]);
    assert data == SIGNATURE + hb + [];
    Middle(SIGNATURE, hb, []);
    DecodeEncodeHeader(h);
    WalkStep(data, |SIGNATURE|);
    var start := |SIGNATURE| + HEADER_SIZE;
    assert Walk(data, start + h.size) == [];
    assert data[start..Min(start + h.size, |data|)] == [];
  }

  /**
   * The body copy: full_read into the buffer until it returns 0, each
   * chunk of at most BUFFER_SIZE bytes passed straight to full_write.
   * What has been written is the part of the file before the bytes still
   * held in the buffer.
   */
  method CopyFile(src: Source, dst: Sink, buffer: array<byte>)
    requires buffer.Length == BUFFER_SIZE && src.pos <= |src.data|
    modifies src, dst, buffer
    ensures dst.data == old(dst.data) + old(src.Remaining())
    ensures src.pos == |src.data|
  {
    ghost var start := src.pos;
    var n: nat := FullRead(src, buffer, buffer.Length);
    while n > 0
      invariant start <= src.pos - n && src.pos <= |src.data| && n <= BUFFER_SIZE
      invariant dst.data == old(dst.data) + src.data[start..src.pos - n]
      invariant forall i :: 0 <= i < n ==> buffer[i] == src.data[src.pos - n + i]
      invariant n < BUFFER_SIZE ==> src.pos == |src.data|
      decreases |src.data| - src.pos + n
    {
      n := CopyChunk(src, dst, buffer, n, old(dst.data), start);
    }
  }

  /**
   * One turn of the copy loop: full_write the `n` buffered bytes, then
   * full_read the next chunk.  The file's bytes from `start` up to those
   * still buffered stay exactly what `dst` holds past `written`.
   */
  method CopyChunk(src: Source, dst: Sink, buffer: array<byte>, n: nat, ghost written: seq<byte>, ghost start: nat)
      returns (next: nat)
    requires buffer.Length == BUFFER_SIZE && n <= BUFFER_SIZE
    requires start <= src.pos - n && n <= src.pos <= |src.data|
    requires forall i :: 0 <= i < n ==> buffer[i] == src.data[src.pos - n + i]
    requires dst.data == written + src.data[start..src.pos - n]
    modifies src, dst, buffer
    ensures start <= src.pos - next && next <= BUFFER_SIZE && src.pos == old(src.pos) + next <= |src.data|
    ensures dst.data == written + src.data[start..src.pos - next]
    ensures forall i :: 0 <= i < next ==> buffer[i] == src.data[src.pos - next + i]
    ensures next < BUFFER_SIZE ==> src.pos == |src.data|
  {
    ghost var p := src.pos;
    assert buffer[..n] == src.data[p - n..p];
    var _ := FullWrite(dst, buffer[..], n);
    Assoc(written, src.data[start..p - n], src.data[p - n..p]);
    SliceJoin(src.data, start, p - n, p);
    next := FullRead(src, buffer, buffer.Length);
    assert src.pos - next == p;
  }

  /**
   * create_archive with the archive already open as `arch` (a fresh
   * truncated file, or standard output with whatever it held before).
   */
  method CreateArchive(arch: Sink, paths: seq<Path>, fs: FileSystem)
    modifies arch
    ensures arch.data == old(arch.data) + CreateImage(fs, paths)
  {
    var _ := FullWrite(arch, SIGNATURE, |SIGNATURE|);
    AppendEntries(arch, fs, paths);
  }

  /** create_archive's loop over the input paths, in order. */
  method AppendEntries(arch: Sink, fs: FileSystem, paths: seq<Path>)
    modifies arch
    ensures arch.data == old(arch.data) + EntriesImage(fs, paths)
  {
    var buffer := new byte[BUFFER_SIZE];
    for i := 0 to |paths|
      invariant arch.data == old(arch.data) + EntriesImage(fs, paths[..i])
    {
      EntriesImageStep(fs, paths, i);
      Assoc(old(arch.data), EntriesImage(fs, paths[..i]), EntryImage(fs, paths[i]));
      AppendEntry(arch, fs, paths[i], buffer);
    }
    assert paths[..|paths|] == paths;
  }

  lemma EntriesImageStep(fs: FileSystem, paths: seq<Path>, i: nat)
    requires i < |paths|
    ensures EntriesImage(fs, paths[..i + 1]) == EntriesImage(fs, paths[..i]) + EntryImage(fs, paths[i])
  {
    assert paths[..i + 1][..i] == paths[..i];
  }

  /** One iteration of create_archive's loop, for path `p`. */
  method AppendEntry(arch: Sink, fs: FileSystem, p: Path, buffer: array<byte>)
    requires buffer.Length == BUFFER_SIZE
    modifies arch, buffer
    ensures arch.data == old(arch.data) + EntryImage(fs, p)
  {
    if p !in fs.meta {
      return;  // stat failed: the path contributes nothing
    }
    var header := MakeHeader(p, fs.meta[p]);
    var _ := FullWrite(arch, EncodeHeader(header), HEADER_SIZE);
    if p !in fs.contents {
      return;  // open failed: the header stays, no body follows
    }
    var file := new Source(fs.contents[p]);
    CopyFile(file, arch, buffer);
    Assoc(old(arch.data), EncodeHeader(header), fs.contents[p]);
  }
}

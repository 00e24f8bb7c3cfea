/**
 * extract_files and list_files: both check the signature, then read
 * header after header until a read comes back short, and either copy or
 * skip the body that follows each header.
 *
 * The archive is a Source positioned at its first byte.  The files that
 * extraction creates live on a Disk; creating one fails exactly for the
 * names in `locked` (a directory that cannot be written, a read-only
 * file, and so on).
 */
module Reader {
  import opened Bytes
  import opened Format
  import opened Streams

  datatype Option<T> = None | Some(value: T)

  /** strncmp(a, b, n) == 0: the first n bytes agree, or agree up to a NUL they share. */
  function StrncmpZero(a: seq<byte>, b: seq<byte>, n: nat): (equal: bool)
    requires n <= |a| && n <= |b|
    ensures a[..n] == b[..n] ==> equal
  {
    if n == 0 then true
    else
      assert a[..n] == b[..n] ==> a[1..][..n - 1] == b[1..][..n - 1] by {
        assert a[1..][..n - 1] == a[..n][1..];
        assert b[1..][..n - 1] == b[..n][1..];
      }
      a[0] == b[0] && (a[0] == 0 || StrncmpZero(a[1..], b[1..], n - 1))
  }

  /** Against a string with no NUL in its first n bytes, strncmp reports equality exactly for equal prefixes. */
  lemma {:induction false} StrncmpZeroIff(a: seq<byte>, b: seq<byte>, n: nat)
    requires n <= |a| && n <= |b| && IsCString(b[..n])
    ensures StrncmpZero(a, b, n) <==> a[..n] == b[..n]
  {
    if n > 0 {
      assert b[..n][0] == b[0];
      assert b[1..][..n - 1] == b[..n][1..];
      StrncmpZeroIff(a[1..], b[1..], n - 1);
      assert a[..n] == [a[0]] + a[1..][..n - 1];
      assert b[..n] == [b[0]] + b[1..][..n - 1];
    }
  }

  /**
   * The signature check: read strlen(SIGNATURE) bytes into a buffer and
   * compare them with strncmp.  A stream shorter than the signature leaves
   * the rest of the buffer as it was (zero here).
   */
  method CheckSignature(arch: Source) returns (ok: bool)
    requires arch.pos == 0
    modifies arch
    ensures ok <==> StartsWithSignature(arch.data)
    ensures ok ==> arch.pos == |SIGNATURE|
  {
    var check := new byte[|SIGNATURE|](_ => 0);
    var n := FullRead(arch, check, |SIGNATURE|);
    ok := StrncmpZero(check[..], SIGNATURE, |SIGNATURE|);
    SignatureIsCString();
    assert SIGNATURE[..|SIGNATURE|] == SIGNATURE;
    StrncmpZeroIff(check[..], SIGNATURE, |SIGNATURE|);
    if n == |SIGNATURE| {
      assert check[..] == arch.data[..|SIGNATURE|];
    } else {
      assert check[..][n] == 0 != SIGNATURE[n];
    }
  }

  /**
   * full_read of one header record: it yields the header found at the
   * current offset when a whole record is left there, and nothing when
   * the read comes back short.
   */
  method ReadHeader(arch: Source, record: array<byte>) returns (h: Option<Header>)
    requires record.Length == HEADER_SIZE
    modifies arch, record
    ensures h.Some? <==> old(arch.pos) + HEADER_SIZE <= |arch.data|
    ensures h.Some? ==> arch.pos == old(arch.pos) + HEADER_SIZE
    ensures h.Some? ==> h.value == DecodeHeader(arch.data[old(arch.pos)..old(arch.pos) + HEADER_SIZE])
  {
    var n := FullRead(arch, record, HEADER_SIZE);
    if n == HEADER_SIZE {
      assert record[..] == arch.data[old(arch.pos)..old(arch.pos) + HEADER_SIZE];
      h := Some(DecodeHeader(record[..]));
    } else {
      h := None;
    }
  }

  /**
   * lseek(fd, size, SEEK_CUR) past a body, then full_read of the next
   * header record, which a whole record read finds at offset `next`.
   */
  method SkipAndReadHeader(arch: Source, record: array<byte>, size: i64, ghost next: nat) returns (h: Option<Header>)
    requires record.Length == HEADER_SIZE && size >= 0 && next == arch.pos + size
    modifies arch, record
    ensures h.Some? <==> next + HEADER_SIZE <= |arch.data|
    ensures h.Some? ==> arch.pos == next + HEADER_SIZE
    ensures h.Some? ==> h.value == DecodeHeader(arch.data[next..next + HEADER_SIZE])
  {
    arch.Seek(size);
    assert arch.pos == next;
    h := ReadHeader(arch, record);
  }

  /** strcmp(a, b) == 0: the two C strings agree up to their terminators. */
  predicate SameCString(a: seq<byte>, b: seq<byte>)
  {
    FieldName(a) == FieldName(b)
  }

  /**
   * The name as extract_files and list_files use it: header.viktar_name
   * taken as a C string, which runs from the start of the record to the
   * first NUL anywhere in it, not only in the name field.
   */
  function CStringName(record: seq<byte>): (name: Path)
    requires |record| == HEADER_SIZE
    ensures |name| <= HEADER_SIZE && IsCString(name) && name == record[..|name|]
  {
    FieldName(record)
  }

  /**
   * A name that fills its field has no terminator in it: read as a C
   * string it goes on into the mode bytes, so whenever the low byte of the
   * mode is not zero (as for any regular file) the name used is longer than
   * the one stored, and differs from what DecodeHeader reads.
   */
  lemma FullNameRunsIntoMode(h: Header)
    requires ValidName(h.name) && |h.name| == MAX_NAME_LEN
    ensures CStringName(EncodeHeader(h)) == h.name + FieldName(EncodeHeader(h)[MODE_AT..])
    ensures h.mode % 256 != 0 ==>
      |CStringName(EncodeHeader(h))| > MAX_NAME_LEN && CStringName(EncodeHeader(h)) != DecodeHeader(EncodeHeader(h)).name
  {
    var b := EncodeHeader(h);
    StoredNameOfCString(h.name);
    assert b[..MODE_AT] == h.name by {
      assert b[..MODE_AT] == NameField(h.name);
      assert NameField(h.name) == h.name + [];
    }
    assert b == b[..MODE_AT] + b[MODE_AT..];
    FieldNameAppend(h.name, b[MODE_AT..]);
    assert b[MODE_AT..UID_AT] == EncodeU32(h.mode);
    assert b[MODE_AT..][0] == EncodeU32(h.mode)[0] == (h.mode % 256) as byte;
    DecodeEncodeHeader(h);
  }

  /**
   * A name field with a NUL in it: read as a C string the record stops at
   * that NUL, so the name the source uses is the stored name.
   */
  lemma CStringNameOfTerminatedField(b: seq<byte>, k: nat)
    requires |b| == HEADER_SIZE && k < MAX_NAME_LEN && b[k] == 0
    ensures CStringName(b) == DecodeHeader(b).name
  {
    var n := FieldName(b[..MODE_AT]);
    FieldNameStopsAtNul(b[..MODE_AT]);
    assert |n| <= k by {
      assert forall i :: 0 <= i < |n| ==> n[i] == b[i] && n[i] != 0;
    }
    assert b == n + b[|n|..];
    FieldNameOfPrefix(n, b[|n|..]);
  }

  /** A header whose name is shorter than the field: both readings of the name give it back. */
  lemma CStringNameOfShortName(h: Header)
    requires ValidName(h.name) && |h.name| < MAX_NAME_LEN
    ensures CStringName(EncodeHeader(h)) == DecodeHeader(EncodeHeader(h)).name == h.name
  {
    var b := EncodeHeader(h);
    StoredNameOfCString(h.name);
    assert b[..MODE_AT] == NameField(h.name);
    NameFieldLayout(h.name);
    assert b[|h.name|] == b[..MODE_AT][|h.name|] == 0;
    CStringNameOfTerminatedField(b, |h.name|);
    DecodeEncodeHeader(h);
  }

  /** A stored name is to be extracted: no names were given, or one of them is this name. */
  predicate Selected(names: seq<Path>, name: Path)
  {
    |names| == 0 || exists j :: 0 <= j < |names| && SameCString(names[j], name)
  }

  /** The search of the requested names for a header's name. */
  method Select(names: seq<Path>, name: Path) returns (extract: bool)
    ensures extract <==> Selected(names, name)
  {
    extract := |names| == 0;
    for i := 0 to |names|
      invariant extract <==> |names| == 0 || exists j :: 0 <= j < i && SameCString(names[j], name)
    {
      if SameCString(names[i], name) {
        extract := true;
        break;
      }
    }
  }

  /** The files extraction may create: their contents, and the names for which creation fails. */
  class Disk {
    var files: map<Path, seq<byte>>
    const locked: set<Path>

    constructor (initial: map<Path, seq<byte>>, refused: set<Path>)
      ensures files == initial && locked == refused
    {
      files := initial;
      locked := refused;
    }

    /** open(name, O_WRONLY | O_CREAT | O_TRUNC): on success the file exists and is empty. */
    method Create(name: Path) returns (ok: bool)
      modifies this
      ensures ok <==> name !in locked
      ensures files == if ok then old(files)[name := []] else old(files)
    {
      ok := name !in locked;
      if ok {
        files := files[name := []];
      }
    }

    /** close: the file keeps the bytes written to it since it was created. */
    method Close(name: Path, written: seq<byte>)
      modifies this
      ensures files == old(files)[name := written]
    {
      files := files[name := written];
    }
  }

  /** An entry whose body extraction copies to a file: it is selected and its file can be created. */
  predicate Copied(e: Entry, names: seq<Path>, locked: set<Path>)
  {
    Selected(names, e.header.name) && e.header.name !in locked
  }

  /** The files after extraction has handled one entry. */
  function Apply(files: map<Path, seq<byte>>, e: Entry, names: seq<Path>, locked: set<Path>): (r: map<Path, seq<byte>>)
    ensures forall n :: n in files && n != e.header.name ==> n in r && r[n] == files[n]
  {
    if Copied(e, names, locked) then files[e.header.name := e.body] else files
  }

  /** The files after extraction has handled the entries in order, starting from `files`. */
  function ExtractSpec(es: seq<Entry>, names: seq<Path>, locked: set<Path>, files: map<Path, seq<byte>>): (r: map<Path, seq<byte>>)
    ensures files.Keys <= r.Keys
  {
    if es == [] then files
    else ExtractSpec(es[1..], names, locked, Apply(files, es[0], names, locked))
  }

  /**
   * Extraction stops making progress: a copied entry whose body the
   * archive holds only in part.  Its copy loop reaches the end of the
   * archive with bytes still to read, and from then on every turn of the
   * loop reads nothing and leaves the state as it was.
   */
  predicate Stalls(es: seq<Entry>, names: seq<Path>, locked: set<Path>)
  {
    es != [] && ((Copied(es[0], names, locked) && |es[0].body| < es[0].header.size) || Stalls(es[1..], names, locked))
  }

  datatype Outcome = NotAnArchive | Finished | Stalled

  /** A name is present after extraction exactly when it was before or some copied entry carries it. */
  lemma {:induction false} ExtractSpecHas(es: seq<Entry>, names: seq<Path>, locked: set<Path>,
                                          files: map<Path, seq<byte>>, n: Path)
    ensures n in ExtractSpec(es, names, locked, files) <==>
      n in files || exists i :: 0 <= i < |es| && Copied(es[i], names, locked) && es[i].header.name == n
  {
    if es != [] {
      ExtractSpecHas(es[1..], names, locked, Apply(files, es[0], names, locked), n);
      if exists i :: 0 <= i < |es[1..]| && Copied(es[1..][i], names, locked) && es[1..][i].header.name == n {
        var i :| 0 <= i < |es[1..]| && Copied(es[1..][i], names, locked) && es[1..][i].header.name == n;
        assert es[i + 1] == es[1..][i];
      }
      if exists i :: 0 <= i < |es| && Copied(es[i], names, locked) && es[i].header.name == n {
        var i :| 0 <= i < |es| && Copied(es[i], names, locked) && es[i].header.name == n;
        if i > 0 {
          assert es[1..][i - 1] == es[i];
        }
      }
    }
  }

  /** A file no copied entry names keeps its contents. */
  lemma {:induction false} ExtractSpecUntouched(es: seq<Entry>, names: seq<Path>, locked: set<Path>,
                                                files: map<Path, seq<byte>>, n: Path)
    requires n in files
    requires forall i :: 0 <= i < |es| && Copied(es[i], names, locked) ==> es[i].header.name != n
    ensures n in ExtractSpec(es, names, locked, files)
    ensures ExtractSpec(es, names, locked, files)[n] == files[n]
  {
    if es != [] {
      assert Copied(es[0], names, locked) ==> es[0].header.name != n;
      forall i | 0 <= i < |es[1..]| && Copied(es[1..][i], names, locked)
        ensures es[1..][i].header.name != n
      {
        assert es[1..][i] == es[i + 1];
      }
      ExtractSpecUntouched(es[1..], names, locked, Apply(files, es[0], names, locked), n);
    }
  }

  /** The file of a name holds the body of the last copied entry with that name. */
  lemma {:induction false} ExtractSpecLastWins(es: seq<Entry>, names: seq<Path>, locked: set<Path>,
                                               files: map<Path, seq<byte>>, i: nat)
    requires i < |es| && Copied(es[i], names, locked)
    requires forall j :: i < j < |es| && Copied(es[j], names, locked) ==> es[j].header.name != es[i].header.name
    ensures es[i].header.name in ExtractSpec(es, names, locked, files)
    ensures ExtractSpec(es, names, locked, files)[es[i].header.name] == es[i].body
  {
    var n := es[i].header.name;
    var after := Apply(files, es[0], names, locked);
    if i == 0 {
      forall j | 0 <= j < |es[1..]| && Copied(es[1..][j], names, locked)
        ensures es[1..][j].header.name != n
      {
        assert es[1..][j] == es[j + 1];
      }
      ExtractSpecUntouched(es[1..], names, locked, after, n);
    } else {
      assert es[1..][i - 1] == es[i];
      forall j | i - 1 < j < |es[1..]| && Copied(es[1..][j], names, locked)
        ensures es[1..][j].header.name != n
      {
        assert es[1..][j] == es[j + 1];
      }
      ExtractSpecLastWins(es[1..], names, locked, after, i - 1);
    }
  }

  /** Entries whose bodies are complete never stall extraction. */
  lemma {:induction false} WellFormedNoStall(es: seq<Entry>, names: seq<Path>, locked: set<Path>)
    requires AllWellFormed(es)
    ensures !Stalls(es, names, locked)
  {
    if es != [] {
      assert WellFormed(es[0]);
      assert AllWellFormed(es[1..]) by {
        forall i | 0 <= i < |es[1..]|
          ensures WellFormed(es[1..][i])
        {
          assert es[1..][i] == es[i + 1];
        }
      }
      WellFormedNoStall(es[1..], names, locked);
    }
  }

  /**
   * extract_files's copy of one body: min(BUFFER_SIZE, to_read) bytes at
   * a time are read and written until `size` bytes are copied.  When a
   * read returns nothing the loop can never finish; the method then
   * reports the stall instead of repeating that turn.
   */
  method CopyBody(arch: Source, out: Sink, buffer: array<byte>, size: nat) returns (stalled: bool)
    requires buffer.Length == BUFFER_SIZE && arch.pos <= |arch.data|
    modifies arch, out, buffer
    ensures out.data == old(out.data) + arch.data[old(arch.pos)..Min(old(arch.pos) + size, |arch.data|)]
    ensures stalled <==> old(arch.pos) + size > |arch.data|
    ensures !stalled ==> arch.pos == old(arch.pos) + size
  {
    ghost var start := arch.pos;
    var toRead: nat := size;
    while toRead > 0
      invariant start <= arch.pos <= |arch.data| && arch.pos + toRead == start + size
      invariant out.data == old(out.data) + arch.data[start..arch.pos]
      decreases toRead
    {
      var readSize: nat := Min(BUFFER_SIZE, toRead);
      ghost var here := arch.pos;
      var got := CopyStep(arch, out, buffer, readSize);
      if got == 0 {
        return true;
      }
      Assoc(old(out.data), arch.data[start..here], arch.data[here..arch.pos]);
      SliceJoin(arch.data, start, here, arch.pos);
      toRead := toRead - got;
    }
    return false;
  }

  /** One turn of the body copy: full_read up to `count` bytes, then full_write what arrived. */
  method CopyStep(arch: Source, out: Sink, buffer: array<byte>, count: nat) returns (got: nat)
    requires buffer.Length == BUFFER_SIZE && 0 < count <= BUFFER_SIZE && arch.pos <= |arch.data|
    modifies arch, out, buffer
    ensures got <= count && arch.pos == old(arch.pos) + got <= |arch.data|
    ensures got == 0 <==> old(arch.pos) == |arch.data|
    ensures got < count ==> arch.pos == |arch.data|
    ensures out.data == old(out.data) + arch.data[old(arch.pos)..arch.pos]
  {
    got := FullRead(arch, buffer, count);
    assert buffer[..got] == arch.data[old(arch.pos)..arch.pos];
    var _ := FullWrite(out, buffer[..], got);
  }

  /**
   * One turn of extract_files's header loop, for header `h` whose body
   * would start at the current offset.  A selected entry whose file can
   * be created has its body copied; any other entry is skipped with lseek.
   */
  method ExtractEntry(arch: Source, h: Header, ghost e: Entry, names: seq<Path>, disk: Disk, buffer: array<byte>)
      returns (stalled: bool)
    requires h.size >= 0 && buffer.Length == BUFFER_SIZE && arch.pos <= |arch.data|
    requires e == Entry(h, arch.data[arch.pos..Min(arch.pos + h.size, |arch.data|)])
    modifies arch, disk, buffer
    ensures disk.files == Apply(old(disk.files), e, names, disk.locked)
    ensures stalled <==> Copied(e, names, disk.locked) && |e.body| < h.size
    ensures !stalled ==> arch.pos == old(arch.pos) + h.size
  {
    var extract := Select(names, h.name);
    if extract {
      var created := disk.Create(h.name);
      if !created {
        arch.Seek(h.size);  // the body is skipped
        return false;
      }
      var out := new Sink();
      stalled := CopyBody(arch, out, buffer, h.size);
      assert out.data == e.body;
      disk.Close(h.name, out.data);
    } else {
      arch.Seek(h.size);
      stalled := false;
    }
  }

  /** Extraction of a non-empty sequence of entries: its first entry, then the rest. */
  lemma ExtractCons(es: seq<Entry>, e: Entry, rest: seq<Entry>, names: seq<Path>, locked: set<Path>,
                    files: map<Path, seq<byte>>)
    requires es == [e] + rest
    ensures ExtractSpec(es, names, locked, files) == ExtractSpec(rest, names, locked, Apply(files, e, names, locked))
    ensures Stalls(es, names, locked) <==> (Copied(e, names, locked) && |e.body| < e.header.size) || Stalls(rest, names, locked)
  {
    Uncons(e, rest);
  }

  /**
   * The ghost state of the extract loop carried past one header: the
   * entry `e` found at `at`, and what the rest of the walk still does.
   */
  lemma ExtractStep(data: seq<byte>, at: nat, h: Header, next: nat, names: seq<Path>, locked: set<Path>,
                    files: map<Path, seq<byte>>, all: seq<Entry>, initial: map<Path, seq<byte>>)
      returns (e: Entry)
    requires at + HEADER_SIZE <= |data| && h == DecodeHeader(data[at..at + HEADER_SIZE])
    requires SizesNonNegative(Walk(data, at)) && next == at + HEADER_SIZE + h.size
    requires ExtractSpec(Walk(data, at), names, locked, files) == ExtractSpec(all, names, locked, initial)
    requires Stalls(all, names, locked) <==> Stalls(Walk(data, at), names, locked)
    ensures h.size >= 0 && SizesNonNegative(Walk(data, next))
    ensures e == Entry(h, data[at + HEADER_SIZE..Min(at + HEADER_SIZE + h.size, |data|)])
    ensures ExtractSpec(Walk(data, next), names, locked, Apply(files, e, names, locked))
      == ExtractSpec(all, names, locked, initial)
    ensures Copied(e, names, locked) && |e.body| < h.size ==>
      Stalls(all, names, locked) && Apply(files, e, names, locked) == ExtractSpec(all, names, locked, initial)
    ensures !(Copied(e, names, locked) && |e.body| < h.size) ==>
      (Stalls(all, names, locked) <==> Stalls(Walk(data, next), names, locked))
  {
    WalkNext(data, at, h, next);
    e := Entry(h, data[at + HEADER_SIZE..Min(next, |data|)]);
    ExtractCons(Walk(data, at), e, Walk(data, next), names, locked, files);
    if |e.body| < h.size {
      assert |data| < next + HEADER_SIZE;
    }
  }

  /**
   * extract_files on an archive already opened as `arch`.  A stream that
   * does not start with the signature is refused and nothing is created.
   * Otherwise each entry is handled in turn as ExtractSpec describes; the
   * run stalls exactly when a copied entry's body is cut short.
   */
  method ExtractFiles(arch: Source, names: seq<Path>, disk: Disk) returns (outcome: Outcome)
    requires arch.pos == 0
    requires StartsWithSignature(arch.data) ==> SizesNonNegative(Walk(arch.data, |SIGNATURE|))
    modifies arch, disk
    ensures outcome == NotAnArchive <==> !StartsWithSignature(arch.data)
    ensures outcome == NotAnArchive ==> disk.files == old(disk.files)
    ensures outcome != NotAnArchive ==>
      disk.files == ExtractSpec(Walk(arch.data, |SIGNATURE|), names, disk.locked, old(disk.files))
    ensures outcome == Stalled <==>
      StartsWithSignature(arch.data) && Stalls(Walk(arch.data, |SIGNATURE|), names, disk.locked)
  {
    var ok := CheckSignature(arch);
    if !ok {
      return NotAnArchive;
    }
    outcome := ExtractEntries(arch, names, disk);
  }

  /**
   * The header loop of extract_files, from the first header on: it ends
   * when no full header is left, or stalls in a body cut short.
   */
  method ExtractEntries(arch: Source, names: seq<Path>, disk: Disk) returns (outcome: Outcome)
    requires SizesNonNegative(Walk(arch.data, arch.pos))
    modifies arch, disk
    ensures outcome != NotAnArchive
    ensures disk.files == ExtractSpec(Walk(arch.data, old(arch.pos)), names, disk.locked, old(disk.files))
    ensures outcome == Stalled <==> Stalls(Walk(arch.data, old(arch.pos)), names, disk.locked)
  {
    ghost var all := Walk(arch.data, arch.pos);
    var buffer := new byte[BUFFER_SIZE];
    var record := new byte[HEADER_SIZE];
    while true
      invariant SizesNonNegative(Walk(arch.data, arch.pos))
      invariant ExtractSpec(Walk(arch.data, arch.pos), names, disk.locked, disk.files)
        == ExtractSpec(all, names, disk.locked, old(disk.files))
      invariant Stalls(all, names, disk.locked) <==> Stalls(Walk(arch.data, arch.pos), names, disk.locked)
      decreases |arch.data| + 1 - Min(arch.pos, |arch.data| + 1)
    {
      ghost var at := arch.pos;
      var h := ReadHeader(arch, record);
      if h.None? {
        return Finished;
      }
      var stalled := ExtractNext(arch, h.value, names, disk, buffer, at, all, old(disk.files));
      if stalled {
        return Stalled;
      }
    }
  }

  /** One turn of the extract loop, from a header just read at `at`, with the loop's ghost state. */
  method ExtractNext(arch: Source, h: Header, names: seq<Path>, disk: Disk, buffer: array<byte>,
                     ghost at: nat, ghost all: seq<Entry>, ghost initial: map<Path, seq<byte>>)
      returns (stalled: bool)
    requires buffer.Length == BUFFER_SIZE
    requires at + HEADER_SIZE <= |arch.data| && arch.pos == at + HEADER_SIZE
    requires h == DecodeHeader(arch.data[at..at + HEADER_SIZE]) && SizesNonNegative(Walk(arch.data, at))
    requires ExtractSpec(Walk(arch.data, at), names, disk.locked, disk.files) == ExtractSpec(all, names, disk.locked, initial)
    requires Stalls(all, names, disk.locked) <==> Stalls(Walk(arch.data, at), names, disk.locked)
    modifies arch, disk, buffer
    ensures stalled ==> Stalls(all, names, disk.locked) && disk.files == ExtractSpec(all, names, disk.locked, initial)
    ensures !stalled ==> h.size >= 0 && arch.pos == at + HEADER_SIZE + h.size
    ensures !stalled ==> SizesNonNegative(Walk(arch.data, arch.pos))
    ensures !stalled ==>
      ExtractSpec(Walk(arch.data, arch.pos), names, disk.locked, disk.files) == ExtractSpec(all, names, disk.locked, initial)
    ensures !stalled ==> (Stalls(all, names, disk.locked) <==> Stalls(Walk(arch.data, arch.pos), names, disk.locked))
  {
    ghost var next := at + HEADER_SIZE + h.size;
    ghost var e := ExtractStep(arch.data, at, h, next, names, disk.locked, disk.files, all, initial);
    stalled := ExtractEntry(arch, h, e, names, disk, buffer);
    if !stalled {
      assert arch.pos == next;
    }
  }

  /** One line (or block of lines) of the table of contents. */
  datatype Listing =
    | Short(name: Path)
    | Long(name: Path, mode: u32, uid: u32, gid: u32, size: i64, mtime: i64, atime: i64)

  function ListingOf(h: Header, showHeaders: bool): Listing
  {
    if showHeaders then Long(h.name, h.mode, h.uid, h.gid, h.size, h.mtime.sec, h.atime.sec)
    else Short(h.name)
  }

  /** The table of contents of a sequence of entries, one listing per entry, in order. */
  function Listings(es: seq<Entry>, showHeaders: bool): (ls: seq<Listing>)
    ensures |ls| == |es|
  {
    if es == [] then []
    else [ListingOf(es[0].header, showHeaders)] + Listings(es[1..], showHeaders)
  }

  lemma {:induction false} ListingsAt(es: seq<Entry>, showHeaders: bool, i: nat)
    requires i < |es|
    ensures Listings(es, showHeaders)[i] == ListingOf(es[i].header, showHeaders)
  {
    if i > 0 {
      ListingsAt(es[1..], showHeaders, i - 1);
    }
  }

  /** The ghost state of the list loop carried past one header. */
  lemma ListStep(data: seq<byte>, at: nat, h: Header, next: nat, lines: seq<Listing>, all: seq<Entry>, showHeaders: bool)
    requires at + HEADER_SIZE <= |data| && h == DecodeHeader(data[at..at + HEADER_SIZE])
    requires SizesNonNegative(Walk(data, at)) && next == at + HEADER_SIZE + h.size
    requires lines + Listings(Walk(data, at), showHeaders) == Listings(all, showHeaders)
    ensures h.size >= 0 && SizesNonNegative(Walk(data, next))
    ensures lines + [ListingOf(h, showHeaders)] + Listings(Walk(data, next), showHeaders) == Listings(all, showHeaders)
  {
    WalkNext(data, at, h, next);
    Uncons(Entry(h, data[at + HEADER_SIZE..Min(next, |data|)]), Walk(data, next));
    Assoc(lines, [ListingOf(h, showHeaders)], Listings(Walk(data, next), showHeaders));
  }

  /**
   * list_files on an archive already opened as `arch`: after the
   * signature check, one listing per header, each body skipped with lseek.
   */
  method ListFiles(arch: Source, showHeaders: bool) returns (ok: bool, lines: seq<Listing>)
    requires arch.pos == 0
    requires StartsWithSignature(arch.data) ==> SizesNonNegative(Walk(arch.data, |SIGNATURE|))
    modifies arch
    ensures ok <==> StartsWithSignature(arch.data)
    ensures ok ==> lines == Listings(Walk(arch.data, |SIGNATURE|), showHeaders)
    ensures !ok ==> lines == []
  {
    lines := [];
    ok := CheckSignature(arch);
    if !ok {
      return;
    }
    ghost var all := Walk(arch.data, |SIGNATURE|);
    ghost var at: nat := |SIGNATURE|;
    var record := new byte[HEADER_SIZE];
    var h := ReadHeader(arch, record);
    while h.Some?
      invariant SizesNonNegative(Walk(arch.data, at))
      invariant lines + Listings(Walk(arch.data, at), showHeaders) == Listings(all, showHeaders)
      invariant h.Some? <==> at + HEADER_SIZE <= |arch.data|
      invariant h.Some? ==> arch.pos == at + HEADER_SIZE
      invariant h.Some? ==> h.value == DecodeHeader(arch.data[at..at + HEADER_SIZE])
      decreases |arch.data| - at
    {
      ghost var next := at + HEADER_SIZE + h.value.size;
      ListStep(arch.data, at, h.value, next, lines, all, showHeaders);
      lines := lines + [ListingOf(h.value, showHeaders)];
      at := next;
      h := SkipAndReadHeader(arch, record, h.value.size, at);
    }
    assert lines + [] == lines;
  }
}

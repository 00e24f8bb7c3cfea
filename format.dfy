/**
 * The archive container: the signature, the fixed-size header record and
 * the layout signature ++ (header ++ body)*, with the walk a reader makes
 * over an archive's bytes.
 *
 * The C struct behind the header lives in viktar.h, which is not part of
 * this model.  The record is given here an explicit packed little-endian
 * schema of the same fields in the same order; what the rest of the model
 * relies on is only that it has a fixed size and that decoding inverts
 * encoding.
 */
module Format {
  import opened Bytes

  /** The format's magic string "*<viktar>*\n". */
  const SIGNATURE: seq<byte> := [42, 60, 118, 105, 107, 116, 97, 114, 62, 42, 10]

  /** Width of the name field: the longest name a header can store. */
  const MAX_NAME_LEN: nat := 22

  /** Offsets of the fields in the encoded record. */
  const MODE_AT: nat := MAX_NAME_LEN
  const UID_AT: nat := MODE_AT + 4
  const GID_AT: nat := UID_AT + 4
  const SIZE_AT: nat := GID_AT + 4
  const ATIME_AT: nat := SIZE_AT + 8
  const MTIME_AT: nat := ATIME_AT + 16
  const CTIME_AT: nat := MTIME_AT + 16
  const HEADER_SIZE: nat := CTIME_AT + 16

  /** A file name or path as a C string: bytes, none of them NUL. */
  type Path = seq<byte>

  predicate IsCString(s: seq<byte>)
  {
    forall i :: 0 <= i < |s| ==> s[i] != 0
  }

  predicate ValidName(name: seq<byte>)
  {
    |name| <= MAX_NAME_LEN && IsCString(name)
  }

  datatype Timespec = Timespec(sec: i64, nsec: i64)

  datatype Header = Header(
    name: Path,
    mode: u32,
    uid: u32,
    gid: u32,
    size: i64,
    atime: Timespec,
    mtime: Timespec,
    ctime: Timespec)

  /** One archive member: its header and the body bytes that follow it. */
  datatype Entry = Entry(header: Header, body: seq<byte>)

  /** An entry whose header can be encoded and whose body is exactly `size` bytes long. */
  predicate WellFormed(e: Entry)
  {
    ValidName(e.header.name) && e.header.size >= 0 && |e.body| == e.header.size
  }

  predicate AllWellFormed(es: seq<Entry>)
  {
    forall i :: 0 <= i < |es| ==> WellFormed(es[i])
  }

  predicate StartsWithSignature(data: seq<byte>)
  {
    |SIGNATURE| <= |data| && data[..|SIGNATURE|] == SIGNATURE
  }

  lemma SignatureIsCString()
    ensures IsCString(SIGNATURE)
  {
  }

  function Zeros(n: nat): (r: seq<byte>)
    ensures |r| == n && forall i :: 0 <= i < n ==> r[i] == 0
  {
    if n == 0 then [] else [0] + Zeros(n - 1)
  }

  /** The name field as it is stored: the name, NUL-padded to the field's width. */
  function NameField(name: Path): (r: seq<byte>)
    requires |name| <= MAX_NAME_LEN
    ensures |r| == MAX_NAME_LEN
  {
    name + Zeros(MAX_NAME_LEN - |name|)
  }

  /** The field holds the name in its first bytes and NUL in all the others. */
  lemma NameFieldLayout(name: Path)
    requires |name| <= MAX_NAME_LEN
    ensures forall i :: 0 <= i < |name| ==> NameField(name)[i] == name[i]
    ensures forall i :: |name| <= i < MAX_NAME_LEN ==> NameField(name)[i] == 0
  {
  }

  /** The name a field holds: its bytes up to the first NUL, never past the field. */
  function FieldName(field: seq<byte>): (name: Path)
    ensures |name| <= |field| && IsCString(name) && name == field[..|name|]
  {
    if field == [] || field[0] == 0 then []
    else [field[0]] + FieldName(field[1..])
  }

  /** The name ends where the field ends or at a NUL. */
  lemma {:induction false} FieldNameStopsAtNul(field: seq<byte>)
    ensures |FieldName(field)| < |field| ==> field[|FieldName(field)|] == 0
  {
    if field != [] && field[0] != 0 {
      FieldNameStopsAtNul(field[1..]);
    }
  }

  lemma {:induction false} FieldNameOfPrefix(name: Path, rest: seq<byte>)
    requires IsCString(name)
    requires rest == [] || rest[0] == 0
    ensures FieldName(name + rest) == name
  {
    if name != [] {
      assert (name + rest)[1..] == name[1..] + rest;
      FieldNameOfPrefix(name[1..], rest);
    }
  }

  /** Reading on from a whole C string: the string, then whatever name follows it. */
  lemma {:induction false} FieldNameAppend(name: Path, rest: seq<byte>)
    requires IsCString(name)
    ensures FieldName(name + rest) == name + FieldName(rest)
  {
    if name != [] {
      assert (name + rest)[1..] == name[1..] + rest;
      FieldNameAppend(name[1..], rest);
      Assoc([name[0]], name[1..], FieldName(rest));
      assert [name[0]] + name[1..] == name;
    } else {
      assert [] + rest == rest;
    }
  }

  lemma FieldNameOfCString(s: seq<byte>)
    requires IsCString(s)
    ensures FieldName(s) == s
  {
    FieldNameOfPrefix(s, []);
    assert s + [] == s;
  }

  lemma FieldNameOfNameField(name: Path)
    requires ValidName(name)
    ensures FieldName(NameField(name)) == name
  {
    FieldNameOfPrefix(name, Zeros(MAX_NAME_LEN - |name|));
  }

  /**
   * The name a header stores for path `p`: what strncpy copies of it,
   * at most MAX_NAME_LEN bytes and never past a NUL.  A path taken from
   * the command line is a C string, and then the stored name is simply
   * its first MAX_NAME_LEN bytes.
   */
  function StoredName(p: Path): (name: Path)
    ensures |name| <= |p| && ValidName(name) && name == p[..|name|]
  {
    FieldName(if |p| <= MAX_NAME_LEN then p else p[..MAX_NAME_LEN])
  }

  /** For a C string the stored name is its first MAX_NAME_LEN bytes; a valid name is stored unchanged. */
  lemma StoredNameOfCString(p: Path)
    requires IsCString(p)
    ensures StoredName(p) == p[..Min(|p|, MAX_NAME_LEN)]
    ensures |p| <= MAX_NAME_LEN ==> StoredName(p) == p
  {
    var clip := if |p| <= MAX_NAME_LEN then p else p[..MAX_NAME_LEN];
    assert clip == p[..Min(|p|, MAX_NAME_LEN)];
    FieldNameOfCString(clip);
  }

  function EncodeTimespec(t: Timespec): (r: seq<byte>)
    ensures |r| == 16
  {
    EncodeI64(t.sec) + EncodeI64(t.nsec)
  }

  function DecodeTimespec(s: seq<byte>): Timespec
    requires |s| == 16
  {
    Timespec(DecodeI64(s[..8]), DecodeI64(s[8..]))
  }

  lemma DecodeEncodeTimespec(t: Timespec)
    ensures DecodeTimespec(EncodeTimespec(t)) == t
  {
    var s := EncodeTimespec(t);
    assert s[..8] == EncodeI64(t.sec);
    assert s[8..] == EncodeI64(t.nsec);
    DecodeEncodeI64(t.sec);
    DecodeEncodeI64(t.nsec);
  }

  /**
   * The fixed-size byte image of a header.  The name field receives what
   * strncpy would copy of the name; a name that is already valid is
   * stored unchanged.
   */
  function EncodeHeader(h: Header): (r: seq<byte>)
    ensures |r| == HEADER_SIZE
  {
    NameField(StoredName(h.name)) + EncodeU32(h.mode) + EncodeU32(h.uid) + EncodeU32(h.gid)
      + EncodeI64(h.size) + EncodeTimespec(h.atime) + EncodeTimespec(h.mtime)
      + EncodeTimespec(h.ctime)
  }

  /** Reads a header from HEADER_SIZE raw bytes; every such image reads as some header. */
  function DecodeHeader(b: seq<byte>): (h: Header)
    requires |b| == HEADER_SIZE
    ensures ValidName(h.name)
  {
    Header(
      FieldName(b[..MODE_AT]),
      DecodeU32(b[MODE_AT..UID_AT]),
      DecodeU32(b[UID_AT..GID_AT]),
      DecodeU32(b[GID_AT..SIZE_AT]),
      DecodeI64(b[SIZE_AT..ATIME_AT]),
      DecodeTimespec(b[ATIME_AT..MTIME_AT]),
      DecodeTimespec(b[MTIME_AT..CTIME_AT]),
      DecodeTimespec(b[CTIME_AT..HEADER_SIZE]))
  }

  lemma DecodeEncodeHeader(h: Header)
    requires ValidName(h.name)
    ensures DecodeHeader(EncodeHeader(h)) == h
  {
    var b := EncodeHeader(h);
    StoredNameOfCString(h.name);
    assert b[..MODE_AT] == NameField(h.name);
    assert b[MODE_AT..UID_AT] == EncodeU32(h.mode);
    assert b[UID_AT..GID_AT] == EncodeU32(h.uid);
    assert b[GID_AT..SIZE_AT] == EncodeU32(h.gid);
    assert b[SIZE_AT..ATIME_AT] == EncodeI64(h.size);
    assert b[ATIME_AT..MTIME_AT] == EncodeTimespec(h.atime);
    assert b[MTIME_AT..CTIME_AT] == EncodeTimespec(h.mtime);
    assert b[CTIME_AT..HEADER_SIZE] == EncodeTimespec(h.ctime);
    FieldNameOfNameField(h.name);
    DecodeEncodeU32(h.mode);
    DecodeEncodeU32(h.uid);
    DecodeEncodeU32(h.gid);
    DecodeEncodeI64(h.size);
    DecodeEncodeTimespec(h.atime);
    DecodeEncodeTimespec(h.mtime);
    DecodeEncodeTimespec(h.ctime);
  }

  /** The bytes of a sequence of entries, each header immediately followed by its body. */
  function Serialize(es: seq<Entry>): (r: seq<byte>)
    ensures |r| >= HEADER_SIZE * |es|
  {
    if es == [] then []
    else EncodeHeader(es[0].header) + es[0].body + Serialize(es[1..])
  }

  /** A whole archive: the signature once, then the entries. */
  function Image(es: seq<Entry>): (r: seq<byte>)
    ensures StartsWithSignature(r)
    ensures |r| >= |SIGNATURE| + HEADER_SIZE * |es|
  {
    SIGNATURE + Serialize(es)
  }

  lemma {:induction false} SerializeAppend(es: seq<Entry>, e: Entry)
    ensures Serialize(es + [e]) == Serialize(es) + EncodeHeader(e.header) + e.body
  {
    if es == [] {
      assert [e][1..] == [];
    } else {
      var first := EncodeHeader(es[0].header) + es[0].body;
      assert (es + [e])[1..] == es[1..] + [e];
      assert Serialize(es + [e]) == first + Serialize(es[1..] + [e]);
      SerializeAppend(es[1..], e);
      Reassociate(first, Serialize(es[1..]), EncodeHeader(e.header), e.body);
    }
  }

  /**
   * The entries a reader meets when it starts reading headers at offset
   * `pos`: it stops as soon as fewer than HEADER_SIZE bytes are left;
   * otherwise it takes the header there and moves HEADER_SIZE + size
   * bytes on, whether or not the body is all there (a skip may move past
   * the end of the data).  The body of an entry is the part of its
   * `size` bytes that the data holds.  A header with a negative size
   * would make the reader seek backwards; the walk ends after it.
   */
  function Walk(data: seq<byte>, pos: nat): (r: seq<Entry>)
    ensures r != [] ==> pos + HEADER_SIZE * |r| <= |data|
    decreases |data| - pos
  {
    if |data| < pos + HEADER_SIZE then []
    else
      var h := DecodeHeader(data[pos..pos + HEADER_SIZE]);
      var start := pos + HEADER_SIZE;
      if h.size < 0 then [Entry(h, [])]
      else
        [Entry(h, data[start..Min(start + h.size, |data|)])] + Walk(data, start + h.size)
  }

  /** Every header the walk meets has a non-negative size. */
  predicate SizesNonNegative(es: seq<Entry>)
  {
    es == [] || (es[0].header.size >= 0 && SizesNonNegative(es[1..]))
  }

  /** One step of the walk: the entry read at `pos`, and where the next header starts. */
  lemma WalkStep(data: seq<byte>, pos: nat)
    requires pos + HEADER_SIZE <= |data|
    requires DecodeHeader(data[pos..pos + HEADER_SIZE]).size >= 0
    ensures
      var h := DecodeHeader(data[pos..pos + HEADER_SIZE]);
      var start := pos + HEADER_SIZE;
      Walk(data, pos) == [Entry(h, data[start..Min(start + h.size, |data|)])] + Walk(data, start + h.size)
  {
  }

  /** A walk from a complete header starts with that header's entry. */
  lemma WalkHead(data: seq<byte>, pos: nat)
    requires pos + HEADER_SIZE <= |data|
    ensures Walk(data, pos) != [] && Walk(data, pos)[0].header == DecodeHeader(data[pos..pos + HEADER_SIZE])
  {
    var h := DecodeHeader(data[pos..pos + HEADER_SIZE]);
    var start := pos + HEADER_SIZE;
    if h.size >= 0 {
      WalkStep(data, pos);
      Uncons(Entry(h, data[start..Min(start + h.size, |data|)]), Walk(data, start + h.size));
    }
  }

  /**
   * The step both loops take at a header: it has a non-negative size, and
   * the walk there is its entry followed by the walk past its body.
   */
  lemma WalkNext(data: seq<byte>, at: nat, h: Header, next: nat)
    requires at + HEADER_SIZE <= |data| && SizesNonNegative(Walk(data, at))
    requires h == DecodeHeader(data[at..at + HEADER_SIZE]) && next == at + HEADER_SIZE + h.size
    ensures h.size >= 0
    ensures Walk(data, at) == [Entry(h, data[at + HEADER_SIZE..Min(next, |data|)])] + Walk(data, next)
    ensures SizesNonNegative(Walk(data, next))
  {
    WalkHead(data, at);
    WalkStep(data, at);
    Uncons(Entry(h, data[at + HEADER_SIZE..Min(next, |data|)]), Walk(data, next));
  }

  lemma Uncons<T>(x: T, s: seq<T>)
    ensures ([x] + s)[0] == x && ([x] + s)[1..] == s
  {
  }

  lemma Assoc<T>(a: seq<T>, b: seq<T>, c: seq<T>)
    ensures a + (b + c) == a + b + c
  {
  }

  lemma SliceJoin<T>(s: seq<T>, i: nat, j: nat, k: nat)
    requires i <= j <= k <= |s|
    ensures s[i..j] + s[j..k] == s[i..k]
  {
  }

  lemma Reassociate(a: seq<byte>, b: seq<byte>, c: seq<byte>, d: seq<byte>)
    ensures a + (b + c + d) == a + b + c + d
  {
  }

  lemma Middle(a: seq<byte>, b: seq<byte>, c: seq<byte>)
    ensures (a + b + c)[|a|..|a| + |b|] == b
  {
  }

  /** A well-formed entry written at `prefix` reads back as itself, and the walk resumes right after it. */
  lemma WalkEntry(prefix: seq<byte>, e: Entry, rest: seq<byte>)
    requires WellFormed(e)
    ensures
      var next := prefix + EncodeHeader(e.header) + e.body;
      Walk(next + rest, |prefix|) == [e] + Walk(next + rest, |next|)
  {
    var hb := EncodeHeader(e.header);
    var next := prefix + hb + e.body;
    var data := next + rest;
    assert data == prefix + hb + (e.body + rest);
    Middle(prefix, hb, e.body + rest);
    DecodeEncodeHeader(e.header);
    WalkStep(data, |prefix|);
    Middle(prefix + hb, e.body, rest);
  }

  /** The walk over serialized entries: the first entry, then the walk over the rest. */
  lemma WalkCons(prefix: seq<byte>, es: seq<Entry>)
    requires es != [] && WellFormed(es[0])
    ensures
      var next := prefix + EncodeHeader(es[0].header) + es[0].body;
      Walk(prefix + Serialize(es), |prefix|) == [es[0]] + Walk(next + Serialize(es[1..]), |next|)
  {
    var hb, body, rest := EncodeHeader(es[0].header), es[0].body, Serialize(es[1..]);
    assert Serialize(es) == hb + body + rest;
    Reassociate(prefix, hb, body, rest);
    WalkEntry(prefix, es[0], rest);
  }

  /** Parsing inverts serializing: a reader walks exactly the entries that were written, in order. */
  lemma {:induction false} WalkSerialize(prefix: seq<byte>, es: seq<Entry>)
    requires AllWellFormed(es)
    ensures Walk(prefix + Serialize(es), |prefix|) == es
    decreases |es|
  {
    if es == [] {
      assert prefix + Serialize(es) == prefix;
    } else {
      assert WellFormed(es[0]);
      WalkCons(prefix, es);
      assert AllWellFormed(es[1..]);
      WalkSerialize(prefix + EncodeHeader(es[0].header) + es[0].body, es[1..]);
      assert es == [es[0]] + es[1..];
    }
  }

  /** Well-formed entries have non-negative sizes. */
  lemma {:induction false} WellFormedSizes(es: seq<Entry>)
    requires AllWellFormed(es)
    ensures SizesNonNegative(es)
  {
    if es != [] {
      assert WellFormed(es[0]);
      assert AllWellFormed(es[1..]) by {
        forall i | 0 <= i < |es[1..]|
          ensures WellFormed(es[1..][i])
        {
          assert es[1..][i] == es[i + 1];
        }
      }
      WellFormedSizes(es[1..]);
    }
  }

  /** An archive image read back from just past its signature yields its entries. */
  lemma ImageRoundTrip(es: seq<Entry>)
    requires AllWellFormed(es)
    ensures StartsWithSignature(Image(es))
    ensures Walk(Image(es), |SIGNATURE|) == es
  {
    WalkSerialize(SIGNATURE, es);
  }
}

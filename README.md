# viktar archive framing, modelled in Dafny

viktar is a small tar-like archiver written in C (`viktar.c`).  An archive
is a fixed signature (taken to be `*<viktar>*\n`, see below) followed by
zero or more entries.  Each
entry is a fixed-size header record holding the file's name, mode, owner,
group, size and times, followed immediately by exactly `size` bytes of
file contents.  There is no entry count and no trailer: a reader stops
when it can no longer read a whole header.

This project models the part of the tool that produces and consumes that
framing:

- the reliable transfer loops `full_write` and `full_read`;
- `create_archive`, which writes the signature and then a header and the
  contents for every input path that `stat` accepts;
- `extract_files`, which checks the signature, walks the headers, and
  either copies a body into a file or skips it with `lseek`;
- `list_files`, which walks the headers the same way and reports the name,
  or the name and the other header fields, of each entry.

Streams are in-memory byte sequences.  A readable stream (`Streams.Source`)
has a cursor that `lseek` may move past the end.  A writable stream
(`Streams.Sink`) is the sequence of bytes written so far.  A single
`read(2)` or `write(2)` call is a nondeterministic choice.  A read moves
between 1 and the requested number of bytes, or 0 at end of file.  A write
accepts between 1 and all of its bytes.  Everything proved about the loops
therefore holds however the system splits a transfer.

The filesystem the writer reads is a value, `Writer.FileSystem`.  `stat(p)`
succeeds exactly when `p` is in `meta`, and `open(p, O_RDONLY)` exactly
when `p` is in `contents`.  The two are independent.  The filesystem the
extractor writes is an object, `Reader.Disk`.  It holds a map of files and
a fixed set of names whose creation fails.

The code relies on two independent reference definitions:

- `Format.Walk` is the reader's view of a byte string: the entries met by
  reading one header after another, each with the body bytes that follow
  it (cut short by the end of the data).
- `Format.Serialize` and `Writer.Archived` are the writer's view: which
  entries it means to write, and their bytes.

The methods are proved against these, and lemmas connect them.  They
include the round trip `Walk(Image(es)) == es`, the created archive as an
image of its accepted paths, and what extraction and listing yield on an
archive the tool created.

The header struct is declared in `viktar.h`, which is not part of this
model.  The model gives the record an explicit packed little-endian
layout of 90 bytes, in this order:

- a 22-byte name field;
- `st_mode`, `st_uid` and `st_gid` as 32-bit values;
- `st_size` as a signed 64-bit value;
- the three `timespec` times, each two signed 64-bit values.

It proves that decoding inverts encoding.  The signature is taken as
`*<viktar>*\n` and `VIKTAR_MAX_FILE_NAME_LEN` as 22.

A stricter reader would treat a header read that returns some bytes but
not a whole header as a corrupt archive.  The code's `while (full_read(…)
== sizeof(header))` ends the loop silently, and so does the model
(`Reader.ReadHeader` returns `None`, and extraction reports `Finished`).

The model follows the code except in a few places, which "## Left out"
lists.  One is the header's name: it is read as the name stored in its
22-byte field, which is the corrected reading described under
"## Findings".  The two readings agree whenever the field holds a NUL,
in particular for every name shorter than the field
(`Reader.CStringNameOfTerminatedField`, `Reader.CStringNameOfShortName`);
they part only for a name that fills the field.

Files: `bytes.dfy` (fixed-width integers), `format.dfy` (signature, header
record, archive layout and walk), `streams.dfy` (streams and the transfer
loops), `writer.dfy` (`create_archive`), `reader.dfy` (`extract_files`,
`list_files`), `roundtrip.dfy` (the writer and reader composed).

## Model

| member | source | states |
|---|---|---|
| Streams.Source.Read | viktar.c:266-273 | one `read` delivers the next bytes of the stream into the buffer at the given offset, at most the count, 0 exactly at end of file or for a zero count, and advances the cursor by what it delivered |
| Streams.Sink.Write | viktar.c:253-258 | one `write` appends a non-empty prefix of the bytes offered |
| Streams.Source.Seek | viktar.c:174 | `lseek(fd, off, SEEK_CUR)` moves the cursor by `off`, possibly past the end; a move before the start leaves it |
| Streams.FullWrite | viktar.c:250-261 | returns exactly `count`, and the stream grows by exactly the first `count` bytes of the buffer, in order |
| Streams.FullRead | viktar.c:263-277 | returns min(count, bytes left); less than `count` only when the stream is exhausted; `buf[0..ret)` holds the next `ret` bytes of the stream, the rest of the buffer is untouched, the cursor advances by `ret` |
| Bytes.FromLEToLE | viktar.c:115 | little-endian decoding inverts encoding for any value that fits the width |
| Bytes.DecodeEncodeU32 | viktar.c:107-109 | a stored mode, uid or gid reads back unchanged |
| Bytes.DecodeEncodeI64 | viktar.c:110 | a stored `st_size` (two's complement, negative values included) reads back unchanged |
| Format.DecodeEncodeTimespec | viktar.c:111-113 | a stored time (seconds and nanoseconds) reads back unchanged |
| Format.FieldName | viktar.c:164 | the name a field holds is a NUL-free prefix of the field |
| Format.FieldNameStopsAtNul | viktar.c:164 | that name ends at the field's end or at a NUL byte |
| Format.FieldNameOfPrefix | viktar.c:164 | a C string followed by a NUL (or by nothing) is read back as exactly that string |
| Format.FieldNameAppend | viktar.c:164 | reading on from a whole C string yields the string followed by whatever name comes next |
| Format.FieldNameOfCString | viktar.c:164 | a C string read as a name is itself |
| Format.FieldNameOfNameField | viktar.c:106 | the name field written for a valid name reads back as that name |
| Format.StoredName | viktar.c:106 | the name a header stores for a path is a NUL-free prefix of the path, at most 22 bytes |
| Format.StoredNameOfCString | viktar.c:106 | for a C-string path the stored name is exactly its first min(len, 22) bytes, and the path itself when it fits |
| Format.EncodeHeader | viktar.c:115 | every header encodes to exactly HEADER_SIZE bytes |
| Format.DecodeHeader | viktar.c:161 | any HEADER_SIZE bytes decode to a header whose name fits the field and has no NUL |
| Format.DecodeEncodeHeader | viktar.c:106-115 | a header with a valid name reads back field for field as written |
| Format.NameFieldLayout | viktar.c:106 | the name field holds the name in its first bytes and NUL in all others |
| Format.SerializeAppend | viktar.c:115-125 | appending an entry appends its header bytes and then its body bytes |
| Format.WalkStep | viktar.c:161-195 | at a whole header with non-negative size the reader's walk is that entry, then the walk from just past its body |
| Format.WalkHead | viktar.c:161 | wherever a whole header remains, the walk starts with the entry of that header |
| Format.WalkNext | viktar.c:227-243 | each reader step advances by HEADER_SIZE + st_size and the rest of the walk starts there |
| Format.WalkEntry | viktar.c:161-195 | reading a well-formed entry in place yields it and resumes just after its body |
| Format.WalkCons | viktar.c:161-195 | walking a serialised non-empty sequence yields its first entry, then walks the rest |
| Format.WalkSerialize | viktar.c:161-195 | walking the bytes of well-formed entries after any prefix yields exactly those entries, in order |
| Format.WellFormedSizes | viktar.c:110 | entries with complete bodies have headers with non-negative sizes |
| Format.ImageRoundTrip | viktar.c:96-128 | signature ++ serialised entries starts with the signature, and reading it back from past the signature yields exactly those entries |
| Format.Serialize | viktar.c:96-128 | the bytes of a sequence of entries: each header record immediately followed by its body, with no separators, count or trailer, so at least HEADER_SIZE bytes per entry |
| Format.Image | viktar.c:96-128 | a whole archive: it starts with the signature, which the serialised entries follow |
| Format.Walk | viktar.c:161-195 | the reader's view of an archive from a position: while a whole header remains, that header's entry with the body bytes after it (cut short at the end of the data), then the walk from HEADER_SIZE + st_size further on (the lseek of viktar.c:174, 193 and 242); a header with negative size ends the walk; every entry walked had its whole header in the data |
| Writer.StrncpyField | viktar.c:106 | `strncpy(field, p, 22)` fills exactly the 22-byte field |
| Writer.StrncpyStoresName | viktar.c:106 | the field strncpy leaves is the name field of the path's stored name |
| Writer.MakeHeader | viktar.c:105-113 | the header built for a path has a valid name |
| Writer.HeaderOfStat | viktar.c:106-113 | the decoded header of a path holds the path truncated to 22 bytes and every stat field unchanged, `st_size` included |
| Writer.BodyOf | viktar.c:117-125 | the body copied for a path: its contents, or nothing when open fails |
| Writer.EntryImage | viktar.c:99-127 | the bytes one path contributes: nothing when stat fails, otherwise its header and then its body |
| Writer.EntriesImage | viktar.c:98-128 | the bytes the paths contribute, one path after another in input order |
| Writer.CreateImage | viktar.c:96-128 | the whole archive create_archive writes: the signature, then the image of each input path in order; it starts with the signature |
| Writer.Archived | viktar.c:98-128 | at most one entry per input path |
| Writer.Accepted | viktar.c:98-103 | the paths kept are input paths that stat accepts |
| Writer.ArchivedAccepted | viktar.c:98-128 | the k-th written entry belongs to the k-th path stat accepted, in input order: header from its stat, body from its contents |
| Writer.EntriesImageStep | viktar.c:98-128 | one more input path appends only that path's bytes |
| Writer.EntriesImageIsSerialize | viktar.c:98-128 | the bytes after the signature serialise the archived entries in input order; paths stat rejects add nothing |
| Writer.ArchivedWellFormed | viktar.c:110-125 | when no file changed between stat and open, every archived body has exactly `st_size` bytes |
| Writer.CreateRoundTrip | viktar.c:96-128 | the created archive starts with the signature, and the reader's walk of it is exactly the archived entries, in input order |
| Writer.OpenFailureLeavesBareHeader | viktar.c:115-121 | when open fails after stat, the header stays with no body after it, and a reader sees that header with an empty body |
| Writer.CopyChunk | viktar.c:123-125 | one turn writes the at most 90000 buffered bytes and reads the next chunk; the bytes written so far are the file's bytes before those buffered |
| Writer.CopyFile | viktar.c:123-125 | copying in at most 90000-byte chunks appends exactly the file's remaining contents and leaves the file at its end |
| Writer.AppendEntry | viktar.c:99-127 | one path appends its header and contents, only its header when open fails, nothing when stat fails |
| Writer.AppendEntries | viktar.c:98-128 | the loop appends the images of the paths in input order |
| Writer.CreateArchive | viktar.c:79-135 | the archive receives the signature once, then each accepted path's header and contents, in order |
| Reader.StrncmpZero | viktar.c:156 | strncmp(a, b, n) == 0: the first n bytes agree, or agree up to a NUL both share; equal first n bytes always compare equal |
| Reader.StrncmpZeroIff | viktar.c:156 | against the NUL-free signature, strncmp reports equality exactly when the first bytes are the signature |
| Reader.CheckSignature | viktar.c:153-159 | the check passes exactly when the stream starts with the signature, leaving the cursor just past it |
| Reader.ReadHeader | viktar.c:161 | a header is read exactly when a whole header remains; it is the decoding of the next HEADER_SIZE bytes and the cursor moves past it |
| Reader.SkipAndReadHeader | viktar.c:242 | skipping a body of `size` bytes and reading on reads the header that starts `size` bytes further |
| Reader.CStringName | viktar.c:164 | the name read as a C string from the record is a NUL-free prefix of the whole record |
| Reader.CStringNameOfTerminatedField | viktar.c:164 | whenever the name field holds a NUL, the name read as a C string is the stored name |
| Reader.CStringNameOfShortName | viktar.c:106 | for a name shorter than the field, reading the encoded header as a C string and reading its field both give the name back |
| Reader.FullNameRunsIntoMode | viktar.c:106 | a name filling its field is read as a C string into the mode bytes, and differs from the stored name whenever the mode's low byte is non-zero |
| Reader.SameCString | viktar.c:164 | strcmp(a, b) == 0: the two byte strings agree up to their first NUL |
| Reader.Selected | viktar.c:162-168 | an entry is extracted when no names were given or some given name is strcmp-equal to its name |
| Reader.Select | viktar.c:162-168 | an entry is selected iff no names were given or some given name equals the stored name as a C string |
| Reader.Disk.Create | viktar.c:171-176 | creation fails exactly for the refused names and otherwise leaves an empty file |
| Reader.Disk.Close | viktar.c:191 | the closed file holds the bytes written to it |
| Reader.CopyStep | viktar.c:180-183 | one turn reads at most the chunk size, 0 only at end of file, and writes exactly what it read |
| Reader.CopyBody | viktar.c:178-184 | copies exactly `size` bytes and advances by `size` when that many remain; otherwise copies what remains, and reports the stall the source would loop in forever |
| Reader.ExtractEntry | viktar.c:162-194 | the files change as one extraction step of the entry describes; it stalls iff the entry is copied and its body is cut short; otherwise the cursor advances by `st_size`, copied or skipped |
| Reader.Copied | viktar.c:162-176 | an entry's body is copied when the entry is selected and opening its file for writing succeeds |
| Reader.Apply | viktar.c:170-194 | one extraction step: a selected entry whose file can be created replaces that file by its body; any other entry leaves the files as they were; no file of another name changes |
| Reader.ExtractSpec | viktar.c:161-195 | the files after the entries are handled in archive order, one Apply each; no file is ever removed |
| Reader.Stalls | viktar.c:179-184 | some copied entry's body is cut short by the end of the archive, where the source's copy loop never ends |
| Reader.ExtractSpecHas | viktar.c:161-195 | a name is present after extraction iff it was before or some copied entry carries it |
| Reader.ExtractSpecUntouched | viktar.c:161-195 | a file no copied entry names keeps its contents |
| Reader.ExtractSpecLastWins | viktar.c:170-191 | a name's file holds the body of the last copied entry with that name |
| Reader.WellFormedNoStall | viktar.c:178-184 | entries with complete bodies never stall extraction |
| Reader.ExtractCons | viktar.c:161-195 | extracting a non-empty sequence is extracting its first entry, then the rest |
| Reader.ExtractStep | viktar.c:161-195 | at each header the extract loop's ghost state carries over past the entry, and a stalled entry is the end of the run |
| Reader.ExtractNext | viktar.c:162-194 | one turn of the header loop keeps the loop invariant, or stalls with the files already holding the final result |
| Reader.ExtractEntries | viktar.c:161-195 | the header loop leaves the files as extraction of the walked entries describes, and stalls iff a copied entry's body is cut short |
| Reader.ExtractFiles | viktar.c:137-202 | a stream without the signature is refused with no file touched; otherwise the files are as extraction of the walked entries describes, and the run stalls exactly when a copied entry's body is cut short |
| Reader.ListingOf | viktar.c:228-240 | what the printfs show of a header, in print order: the name; or the name, mode, uid, gid, size, mtime and atime seconds |
| Reader.Listings | viktar.c:227-243 | one listing per entry |
| Reader.ListingsAt | viktar.c:227-243 | the i-th listing is that of the i-th entry, in archive order |
| Reader.ListStep | viktar.c:227-243 | each turn of the list loop adds the current entry's listing and moves past its body |
| Reader.ListFiles | viktar.c:204-248 | a stream without the signature is refused with no listing; otherwise one listing per walked entry, in archive order, with the name or the name, mode, uid, gid, size, mtime and atime; no file is written |
| RoundTrip.CreatedArchiveReads | viktar.c:161-195 | a created archive starts with the signature, has only non-negative sizes, and never stalls extraction, whatever names are requested or files refused |
| RoundTrip.CreateThenExtract | viktar.c:161-195 | extracting a created archive with no names and every file creatable gives each accepted path's stored name that path's contents, unless a later accepted path has the same stored name |
| RoundTrip.ListAfterCreate | viktar.c:227-243 | listing a created archive yields one listing per accepted path, in input order, with its stored name and, with headers shown, the stat fields |
| RoundTrip.LongPathNameRunsOn | viktar.c:106 | for a 22-byte path of a regular file the header stores the whole path, but the name read as a C string is longer |

## Left out

- `main` and its option parsing (viktar.c:19-77): command-line plumbing.  `-t` and `-T` correspond to `Reader.ListFiles` with `showHeaders` false and true.
- Opening and closing the archive, and the choice of standard input or output (viktar.c:85-93, 143-151, 208-216, 130-132, 197-199, 245-247): each operation receives the archive stream already open.
- Every `-1` return of `open`, `read` or `write` that makes the tool exit with `perror`: device errors are not modelled.  The failures that do not end the run are modelled: `stat` failing, `open` for reading failing, and `open` for writing failing.
- `Streams.Source.Seek`: the source ignores what `lseek` returns (viktar.c:174, 193, 242).  A skip that fails is not modelled.  It fails when the archive cannot seek, such as a pipe on standard input.  It also fails when the new offset lies past the largest file offset the file system allows (past 2^63 - 1, or far less on some file systems), with the cursor left where it was.  The model's cursor always moves by a non-negative offset, so the next header is read after the skipped body.  The source, after a failed skip, reads the next header from inside the body.  For example, an archive of one header with `st_size` 2^63 - 1 followed by 90 more bytes lists one entry in the model, where the source lists a second entry decoded from those bytes, and extraction may create files the model does not.
- `Reader.ExtractFiles`: the name compared with the requested names and used to create the file is the name stored in the header's field, stopping at the field's end.  The source uses `header.viktar_name` as a C string (viktar.c:164, 171), which for a name of 22 bytes or more runs past the field (see "## Findings").  The two readings agree whenever the field holds a NUL (`Reader.CStringNameOfTerminatedField`), so the difference is confined to names that fill the field.  For such a name it goes both ways.  Given the stored name, the model selects the entry and creates a file of that name, where the source would not.  Given the run-on name (the stored name followed by the bytes after the field), the source selects the entry and creates a file under that longer name, where the model would not.
- `Reader.ListFiles`: the name listed is likewise the name stored in the field, whereas the source prints `header.viktar_name` as a C string (viktar.c:229, 239) and for a name of 22 bytes or more prints the bytes after the field too.  The two agree whenever the field holds a NUL (`Reader.CStringNameOfTerminatedField`).
- `Writer.CreateArchive`: the input filesystem is a value independent of the archive stream, so an archive named among its own inputs is not modelled.  There the source would read back a file it is appending to.
- `Streams.Sink.Write`: a `write` that accepts zero bytes is excluded, because `full_write` would loop forever on it.
- `Reader.ExtractFiles`: applying `utime` (viktar.c:186-189) and creating the file with `header.st_mode` are not modelled; the extracted file's contents are.  uid, gid, ctime and the nanosecond fields are only carried in the header.
- `Reader.ExtractFiles` and `Reader.ListFiles` require every header the walk meets to have a non-negative `st_size`.  With a negative size the source's `lseek` moves backwards and can loop forever, and `size_t to_read` becomes huge.
- `Reader.ExtractFiles`: its contract takes every skip (viktar.c:174, 193) to succeed.  A skip past the largest file offset the system allows fails in the source, and the header read that follows comes from inside the body (see `Streams.Source.Seek` above).  For such an archive the files the contract states are those of the walk, and the source may create others.
- `Reader.ListFiles`: its contract likewise takes every skip (viktar.c:242) to succeed.  For an archive with a size past the largest file offset the listing it states is that of the walk, and the source lists further entries decoded from inside the body.
- `Reader.CopyBody`: when the archive ends inside a copied body, the source's loop reads 0 bytes on every turn and never ends.  The model stops at the first such turn and reports `Stalled` instead.
- `Reader.CheckSignature`: when the stream is shorter than the signature, the source compares uninitialised bytes of `check_header`.  The model's buffer is zero-filled, so a short stream is always refused.
- `Reader.ListFiles`: the `printf` formatting and the "Contents of viktar file" line (viktar.c:226-240) are not modelled.  A `Listing` holds the fields printed, in print order.
- `Reader.Disk`: which creations fail is decided before the run (`locked` is a constant) and does not depend on the files extraction itself creates.  In the source a file is created with `header.st_mode` (viktar.c:171), so after an earlier entry made a read-only file, a later entry of the same name can fail to open it, and the first body stays; `Reader.ExtractSpecLastWins` and `RoundTrip.CreateThenExtract` do not capture that.
- `Reader.Disk`: the files extracted to are independent of the archive being read, so an entry named like the archive itself is not modelled.  There the source would truncate the archive it is reading, and its copy loop would then read nothing forever.
- `Reader.Disk`: bodies are written through a `Sink` and stored in the file map at `close`; the source writes into the open file directly, with the same final contents.
- The real header struct layout of `viktar.h` and any padding in it.  viktar.h is not part of this model, and the layout above stands in for it.  The values of the signature and of the name length are taken as stated above.

## Findings

| source | as written | input that shows it | evidently intended | confidence | as-written member | corrected member |
|---|---|---|---|---|---|---|
| viktar.c:106 | `strncpy(header.viktar_name, files[i], 22)` leaves the name field without a NUL when the path has 22 bytes or more.  `extract_files` and `list_files` then use `header.viktar_name` as a C string (viktar.c:164, 171, 229), which runs on into the bytes after the field. | the 22-byte path `aaaaaaaaaaaaaaaaaaaaaa` of a regular file with mode 0100644: the name compared, created and printed is the path followed by the mode's low bytes 0xA4 0x81 | the name read back stops at the end of the 22-byte field, giving the stored name | medium (depends on the layout in viktar.h: with padding after the name field the bytes read on are padding rather than the mode, and the name is still not the stored one unless the padding happens to be zero), not executed | Reader.FullNameRunsIntoMode | Format.DecodeEncodeHeader |

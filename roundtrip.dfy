/**
 * What the reader makes of an archive the writer created: the two halves
 * of the tool composed.  All of it assumes that no input file changed
 * between its stat and its open.
 */
module RoundTrip {
  import opened Bytes
  import opened Format
  import opened Writer
  import opened Reader

  /**
   * A created archive meets extract_files' and list_files' precondition,
   * and extracting it never stalls, whatever names are asked for and
   * whichever files cannot be created.
   */
  lemma CreatedArchiveReads(fs: FileSystem, paths: seq<Path>, names: seq<Path>, locked: set<Path>)
    requires Consistent(fs, paths)
    ensures StartsWithSignature(CreateImage(fs, paths))
    ensures SizesNonNegative(Walk(CreateImage(fs, paths), |SIGNATURE|))
    ensures !Stalls(Walk(CreateImage(fs, paths), |SIGNATURE|), names, locked)
  {
    CreateRoundTrip(fs, paths);
    ArchivedWellFormed(fs, paths);
    WellFormedSizes(Archived(fs, paths));
    WellFormedNoStall(Archived(fs, paths), names, locked);
  }

  /**
   * Extracting everything from a created archive, with every file
   * creatable, leaves under the stored name of an accepted path that
   * path's contents -- unless a later accepted path has the same stored
   * name, whose contents then replace it.
   */
  lemma CreateThenExtract(fs: FileSystem, paths: seq<Path>, files: map<Path, seq<byte>>, k: nat)
    requires Consistent(fs, paths)
    requires k < |Accepted(fs, paths)|
    requires forall j :: k < j < |Accepted(fs, paths)| ==>
      StoredName(Accepted(fs, paths)[j]) != StoredName(Accepted(fs, paths)[k])
    ensures
      var out := ExtractSpec(Walk(CreateImage(fs, paths), |SIGNATURE|), [], {}, files);
      var p := Accepted(fs, paths)[k];
      StoredName(p) in out && p in fs.contents && out[StoredName(p)] == fs.contents[p]
  {
    var ps := Accepted(fs, paths);
    var es := Archived(fs, paths);
    CreateRoundTrip(fs, paths);
    ArchivedAccepted(fs, paths);
    var p := ps[k];
    assert p in paths;
    var i :| 0 <= i < |paths| && paths[i] == p;
    assert p in fs.contents;
    forall j | k < j < |es| && Copied(es[j], [], {})
      ensures es[j].header.name != es[k].header.name
    {
      assert es[j].header.name == StoredName(ps[j]);
    }
    ExtractSpecLastWins(es, [], {}, files, k);
  }

  /**
   * The table of contents of a created archive: one listing per
   * accepted path, in input order, naming its stored name and, with
   * headers shown, the owner, mode, size and times stat reported.
   */
  lemma ListAfterCreate(fs: FileSystem, paths: seq<Path>, showHeaders: bool)
    requires Consistent(fs, paths)
    ensures
      var ls := Listings(Walk(CreateImage(fs, paths), |SIGNATURE|), showHeaders);
      var ps := Accepted(fs, paths);
      && |ls| == |ps|
      && forall k :: 0 <= k < |ps| ==>
        var st := fs.meta[ps[k]];
        ls[k] == if showHeaders
          then Long(StoredName(ps[k]), st.mode, st.uid, st.gid, st.size, st.mtime.sec, st.atime.sec)
          else Short(StoredName(ps[k]))
  {
    var es := Archived(fs, paths);
    CreateRoundTrip(fs, paths);
    ArchivedAccepted(fs, paths);
    forall k | 0 <= k < |es|
      ensures Listings(es, showHeaders)[k] == ListingOf(es[k].header, showHeaders)
    {
      ListingsAt(es, showHeaders, k);
    }
  }

  /**
   * A 22-byte path of a regular file (mode 0100644): the header stores
   * the whole path, but the name extract_files opens and compares and
   * list_files prints is read on into the mode bytes.
   */
  lemma LongPathNameRunsOn()
    ensures
      var p := seq(MAX_NAME_LEN, _ => 97 as byte);
      var t := Timespec(0, 0);
      var record := EncodeHeader(MakeHeader(p, Stat(0x81A4, 1000, 1000, 0, t, t, t)));
      && DecodeHeader(record).name == p
      && CStringName(record) != p
      && |CStringName(record)| > MAX_NAME_LEN
  {
    var p := seq(MAX_NAME_LEN, _ => 97 as byte);
    var t := Timespec(0, 0);
    var st := Stat(0x81A4, 1000, 1000, 0, t, t, t);
    HeaderOfStat(p, st);
    StoredNameOfCString(p);
    FullNameRunsIntoMode(MakeHeader(p, st));
  }
}

/** The OCF zip container the exporter writes (section 3.3 of OCF 2.0.1):
    the `mimetype` file first and stored, then every other file of the
    scratch directory, compressed, in the order the directory walk yields
    them. Entries are modelled by name, compression method and the
    document they hold; zip encoding and DEFLATE are not modelled. */
module Ocf {

  import opened Wrappers
  import opened Epub

  datatype Compression = Stored | Deflated

  datatype Entry = Entry(name: string, compression: Compression, data: FileData)

  const MarkerEntryName: string := "mimetype"

  /** The entries the walk loop adds after the marker: every walked file
      but `mimetype`, compressed, in walk order. Writing a file that does
      not exist raises, which ends the archive with that path as error. */
  function WalkEntries(files: map<ScratchPath, FileData>, walk: seq<ScratchPath>): Result<seq<Entry>, ScratchPath> {
    if walk == [] then Ok([])
    else
      match WalkEntries(files, walk[..|walk| - 1])
      case Err(p) => Err(p)
      case Ok(entries) =>
        var p := walk[|walk| - 1];
        if ArchiveName(p) == MarkerEntryName then Ok(entries)
        else if p !in files then Err(p)
        else Ok(entries + [Entry(ArchiveName(p), Deflated, files[p])])
  }

  /** The whole archive: the marker entry, stored, then the walk entries. */
  function ArchiveOf(files: map<ScratchPath, FileData>, walk: seq<ScratchPath>): Result<seq<Entry>, ScratchPath> {
    if MimetypePath !in files then Err(MimetypePath)
    else
      match WalkEntries(files, walk)
      case Err(p) => Err(p)
      case Ok(entries) => Ok([Entry(MarkerEntryName, Stored, files[MimetypePath])] + entries)
  }

  /** `_create_epub_archive`: writes the marker entry, then walks the
      scratch directory and writes every other file. */
  method CreateArchive(files: map<ScratchPath, FileData>, walk: seq<ScratchPath>)
    returns (r: Result<seq<Entry>, ScratchPath>)
    ensures r == ArchiveOf(files, walk)
  {
    if MimetypePath !in files {
      return Err(MimetypePath);
    }
    var marker := Entry(MarkerEntryName, Stored, files[MimetypePath]);
    var rest := WriteWalk(files, walk);
    match rest {
      case Err(p) => r := Err(p);
      case Ok(entries) => r := Ok([marker] + entries);
    }
  }

  /** The walk loop of `_create_epub_archive`: every walked file but the
      marker is written, compressed, in walk order. */
  method WriteWalk(files: map<ScratchPath, FileData>, walk: seq<ScratchPath>)
    returns (r: Result<seq<Entry>, ScratchPath>)
    ensures r == WalkEntries(files, walk)
  {
    var entries := [];
    var i := 0;
    assert walk[..0] == [];
    while i < |walk|
      invariant 0 <= i <= |walk|
      invariant WalkEntries(files, walk[..i]) == Ok(entries)
    {
      var p := walk[i];
      WalkStep(files, walk, i, entries);
      var arcname := ArchiveName(p);
      if arcname != MarkerEntryName {
        if p !in files {
          WalkErrorPersists(files, walk, i + 1);
          return Err(p);
        }
        entries := entries + [Entry(arcname, Deflated, files[p])];
      }
      i := i + 1;
    }
    assert walk[..|walk|] == walk;
    r := Ok(entries);
  }

  /** One step of the walk: the file at position `i` is skipped when it is
      the marker, ends the walk when it is missing, and is appended
      otherwise. */
  lemma WalkStep(files: map<ScratchPath, FileData>, walk: seq<ScratchPath>, i: nat, written: seq<Entry>)
    requires i < |walk| && WalkEntries(files, walk[..i]) == Ok(written)
    ensures var p := walk[i];
      && (ArchiveName(p) == MarkerEntryName ==> WalkEntries(files, walk[..i + 1]) == Ok(written))
      && (ArchiveName(p) != MarkerEntryName && p !in files ==> WalkEntries(files, walk[..i + 1]) == Err(p))
      && (ArchiveName(p) != MarkerEntryName && p in files ==>
            WalkEntries(files, walk[..i + 1]) == Ok(written + [Entry(ArchiveName(p), Deflated, files[p])]))
  {
    assert walk[..i + 1][..i] == walk[..i];
    assert walk[..i + 1][i] == walk[i];
  }

  /** Once the walk has failed, later files do not change the outcome. */
  lemma {:induction false} WalkErrorPersists(files: map<ScratchPath, FileData>, walk: seq<ScratchPath>, n: nat)
    requires n <= |walk| && WalkEntries(files, walk[..n]).Err?
    ensures WalkEntries(files, walk) == WalkEntries(files, walk[..n])
    decreases |walk| - n
  {
    if n < |walk| {
      assert walk[..n + 1][..n] == walk[..n];
      WalkErrorPersists(files, walk, n + 1);
    } else {
      assert walk[..n] == walk;
    }
  }

  /** No walk entry is called `mimetype` and every one is compressed. */
  lemma {:induction false} WalkEntriesCompressed(files: map<ScratchPath, FileData>, walk: seq<ScratchPath>)
    requires WalkEntries(files, walk).Ok?
    ensures forall k :: 0 <= k < |WalkEntries(files, walk).value| ==>
      WalkEntries(files, walk).value[k].name != MarkerEntryName
      && WalkEntries(files, walk).value[k].compression == Deflated
  {
    if walk != [] {
      WalkEntriesCompressed(files, walk[..|walk| - 1]);
    }
  }

  /** The first entry of every archive written is `mimetype`, stored; no
      other entry has that name, and every other entry is compressed. */
  lemma ArchiveLayout(files: map<ScratchPath, FileData>, walk: seq<ScratchPath>)
    requires ArchiveOf(files, walk).Ok?
    ensures var entries := ArchiveOf(files, walk).value;
      && |entries| >= 1
      && entries[0] == Entry(MarkerEntryName, Stored, files[MimetypePath])
      && forall k :: 1 <= k < |entries| ==>
           entries[k].name != MarkerEntryName && entries[k].compression == Deflated
  {
    WalkEntriesCompressed(files, walk);
  }

  /** Writing fails exactly when the marker file is missing or the walk
      yields some other file that is not there. */
  lemma ArchiveFailsIff(files: map<ScratchPath, FileData>, walk: seq<ScratchPath>)
    ensures ArchiveOf(files, walk).Err? <==>
      MimetypePath !in files || exists k :: 0 <= k < |walk| && walk[k] != MimetypePath && walk[k] !in files
  {
    WalkFailsIff(files, walk);
  }

  lemma {:induction false} WalkFailsIff(files: map<ScratchPath, FileData>, walk: seq<ScratchPath>)
    ensures WalkEntries(files, walk).Err? <==>
      exists k :: 0 <= k < |walk| && walk[k] != MimetypePath && walk[k] !in files
  {
    if walk != [] {
      var front := walk[..|walk| - 1];
      var p := walk[|walk| - 1];
      WalkFailsIff(files, front);
      ArchiveNameInjective(p, MimetypePath);
      if exists k :: 0 <= k < |front| && front[k] != MimetypePath && front[k] !in files {
        var k :| 0 <= k < |front| && front[k] != MimetypePath && front[k] !in files;
        assert walk[k] == front[k];
      }
      if exists k :: 0 <= k < |walk| && walk[k] != MimetypePath && walk[k] !in files {
        var k :| 0 <= k < |walk| && walk[k] != MimetypePath && walk[k] !in files;
        if k < |front| {
          assert front[k] == walk[k];
        }
      }
    }
  }

  /** The walked files other than the marker, in walk order. */
  function NonMarker(walk: seq<ScratchPath>): seq<ScratchPath> {
    if walk == [] then []
    else
      var p := walk[|walk| - 1];
      NonMarker(walk[..|walk| - 1]) + (if p == MimetypePath then [] else [p])
  }

  predicate Distinct<T(==)>(s: seq<T>) {
    forall i, j :: 0 <= i < j < |s| ==> s[i] != s[j]
  }

  /** A walk that yields every file of the directory exactly once, as a
      directory walk does. */
  predicate IsListing(walk: seq<ScratchPath>, files: map<ScratchPath, FileData>) {
    && Distinct(walk)
    && (forall p :: p in walk ==> p in files)
    && (forall p :: p in files ==> p in walk)
  }

  lemma {:induction false} NonMarkerMembers(walk: seq<ScratchPath>)
    ensures forall p :: p in NonMarker(walk) <==> p in walk && p != MimetypePath
    ensures Distinct(walk) ==> Distinct(NonMarker(walk))
  {
    if walk != [] {
      var front := walk[..|walk| - 1];
      var p := walk[|walk| - 1];
      NonMarkerMembers(front);
      assert walk == front + [p];
      if Distinct(walk) {
        assert p !in front;
        assert Distinct(front);
      }
    }
  }

  function EntryFor(files: map<ScratchPath, FileData>, p: ScratchPath): Entry
    requires p in files
  {
    Entry(ArchiveName(p), Deflated, files[p])
  }

  /** When every walked file exists, the walk entries are those of the
      walked files other than the marker, in walk order. */
  lemma {:induction false} WalkEntriesPresent(files: map<ScratchPath, FileData>, walk: seq<ScratchPath>)
    requires forall k :: 0 <= k < |walk| ==> walk[k] in files
    ensures NonMarkerInFiles(files, walk)
    ensures WalkEntries(files, walk).Ok?
    ensures |WalkEntries(files, walk).value| == |NonMarker(walk)|
    ensures forall k :: 0 <= k < |NonMarker(walk)| ==>
      WalkEntries(files, walk).value[k] == EntryFor(files, NonMarker(walk)[k])
  {
    NonMarkerMembers(walk);
    if walk != [] {
      var front := walk[..|walk| - 1];
      var p := walk[|walk| - 1];
      assert forall k :: 0 <= k < |front| ==> front[k] == walk[k];
      WalkEntriesPresent(files, front);
      ArchiveNameInjective(p, MimetypePath);
    }
  }

  /** The walk does not fail when every walked file exists. */
  lemma {:induction false} WalkEntriesOk(files: map<ScratchPath, FileData>, walk: seq<ScratchPath>)
    requires forall k :: 0 <= k < |walk| ==> walk[k] in files
    ensures WalkEntries(files, walk).Ok?
  {
    if walk != [] {
      var front := walk[..|walk| - 1];
      assert forall k :: 0 <= k < |front| ==> front[k] == walk[k];
      WalkEntriesOk(files, front);
    }
  }

  predicate NonMarkerInFiles(files: map<ScratchPath, FileData>, walk: seq<ScratchPath>) {
    forall k :: 0 <= k < |NonMarker(walk)| ==> NonMarker(walk)[k] in files
  }

  /** The walk entries of a walk that yields each existing file once have
      distinct names, none of them `mimetype`. */
  lemma WalkEntryNamesDistinct(files: map<ScratchPath, FileData>, walk: seq<ScratchPath>)
    requires (forall k :: 0 <= k < |walk| ==> walk[k] in files) && Distinct(walk)
    ensures WalkEntries(files, walk).Ok?
    ensures var rest := WalkEntries(files, walk).value;
      forall i, j :: 0 <= i < j < |rest| ==> rest[i].name != rest[j].name
  {
    WalkEntriesPresent(files, walk);
    NonMarkerMembers(walk);
    var rest := WalkEntries(files, walk).value;
    var names := NonMarker(walk);
    forall i, j | 0 <= i < j < |rest| ensures rest[i].name != rest[j].name {
      assert rest[i] == EntryFor(files, names[i]) && rest[j] == EntryFor(files, names[j]);
      ArchiveNameInjective(names[i], names[j]);
    }
  }

  /** Every existing file the walk yields, other than the marker, has its
      entry among the walk entries. */
  lemma WalkEntriesCover(files: map<ScratchPath, FileData>, walk: seq<ScratchPath>, p: ScratchPath) returns (k: nat)
    requires forall k :: 0 <= k < |walk| ==> walk[k] in files
    requires p in walk && p != MimetypePath
    ensures WalkEntries(files, walk).Ok? && p in files
    ensures k < |WalkEntries(files, walk).value| && WalkEntries(files, walk).value[k] == EntryFor(files, p)
  {
    WalkEntriesPresent(files, walk);
    NonMarkerMembers(walk);
    k :| 0 <= k < |NonMarker(walk)| && NonMarker(walk)[k] == p;
  }

  predicate NamesDistinct(entries: seq<Entry>) {
    forall i, j :: 0 <= i < j < |entries| ==> entries[i].name != entries[j].name
  }

  lemma PrependedNamesDistinct(head: Entry, rest: seq<Entry>)
    requires NamesDistinct(rest)
    requires forall k :: 0 <= k < |rest| ==> rest[k].name != head.name
    ensures NamesDistinct([head] + rest)
  {
    var entries := [head] + rest;
    forall i, j | 0 <= i < j < |entries| ensures entries[i].name != entries[j].name {
      assert entries[j] == rest[j - 1];
      if i > 0 {
        assert entries[i] == rest[i - 1];
      }
    }
  }

  /** Walking a listing of the directory gives an archive whose entry
      names are distinct. */
  lemma ArchiveOfListing(files: map<ScratchPath, FileData>, walk: seq<ScratchPath>)
    requires MimetypePath in files && IsListing(walk, files)
    ensures ArchiveOf(files, walk).Ok?
    ensures NamesDistinct(ArchiveOf(files, walk).value)
  {
    assert forall k :: 0 <= k < |walk| ==> walk[k] in files;
    WalkEntryNamesDistinct(files, walk);
    WalkEntriesCompressed(files, walk);
    var rest := WalkEntries(files, walk).value;
    var head := Entry(MarkerEntryName, Stored, files[MimetypePath]);
    assert ArchiveOf(files, walk) == Ok([head] + rest);
    PrependedNamesDistinct(head, rest);
  }

  /** Every file the walk yields other than the marker has an entry under
      its own name holding its own content, when every walked file exists. */
  lemma WalkedFileArchived(files: map<ScratchPath, FileData>, walk: seq<ScratchPath>, p: ScratchPath)
    returns (k: nat)
    requires MimetypePath in files && (forall k :: 0 <= k < |walk| ==> walk[k] in files)
    requires p in walk && p != MimetypePath
    ensures ArchiveOf(files, walk).Ok?
    ensures k < |ArchiveOf(files, walk).value|
    ensures ArchiveOf(files, walk).value[k] == EntryFor(files, p)
  {
    var j := WalkEntriesCover(files, walk, p);
    var rest := WalkEntries(files, walk).value;
    var entries := [Entry(MarkerEntryName, Stored, files[MimetypePath])] + rest;
    assert ArchiveOf(files, walk) == Ok(entries);
    assert entries[j + 1] == rest[j];
    k := j + 1;
  }

  function Names(entries: seq<Entry>): seq<string> {
    seq(|entries|, i requires 0 <= i < |entries| => entries[i].name)
  }

  /** Walking a listing, every file of the directory has an entry name. */
  lemma ListingArchiveNames(files: map<ScratchPath, FileData>, walk: seq<ScratchPath>, p: ScratchPath)
    requires MimetypePath in files && IsListing(walk, files) && p in files
    ensures ArchiveOf(files, walk).Ok? && ArchiveName(p) in Names(ArchiveOf(files, walk).value)
  {
    assert forall k :: 0 <= k < |walk| ==> walk[k] in files;
    if p == MimetypePath {
      WalkEntriesOk(files, walk);
      assert Names(ArchiveOf(files, walk).value)[0] == ArchiveName(p);
    } else {
      var k := WalkedFileArchived(files, walk, p);
      assert Names(ArchiveOf(files, walk).value)[k] == ArchiveName(p);
    }
  }


  /** Every walk entry holds an existing file under that file's name. */
  lemma {:induction false} WalkEntriesFromFiles(files: map<ScratchPath, FileData>, walk: seq<ScratchPath>)
    requires WalkEntries(files, walk).Ok?
    ensures forall e :: e in WalkEntries(files, walk).value ==>
      exists p :: p in files && p in walk && e == EntryFor(files, p)
  {
    if walk != [] {
      var front := walk[..|walk| - 1];
      WalkEntriesFromFiles(files, front);
      forall e | e in WalkEntries(files, walk).value
        ensures exists p :: p in files && p in walk && e == EntryFor(files, p)
      {
        if e in WalkEntries(files, front).value {
          var p :| p in files && p in front && e == EntryFor(files, p);
          assert p in walk;
        } else {
          assert e == EntryFor(files, walk[|walk| - 1]);
        }
      }
    }
  }

  /** Every entry of an archive written holds a file of the directory,
      under that file's name and with its content: nothing is invented. */
  lemma ArchiveEntriesFromFiles(files: map<ScratchPath, FileData>, walk: seq<ScratchPath>)
    requires ArchiveOf(files, walk).Ok?
    ensures forall e :: e in ArchiveOf(files, walk).value ==>
      exists p :: p in files && e.name == ArchiveName(p) && e.data == files[p]
  {
    WalkEntriesFromFiles(files, walk);
    var rest := WalkEntries(files, walk).value;
    forall e | e in ArchiveOf(files, walk).value
      ensures exists p :: p in files && e.name == ArchiveName(p) && e.data == files[p]
    {
      if e in rest {
        var p :| p in files && p in walk && e == EntryFor(files, p);
      } else {
        assert e.name == ArchiveName(MimetypePath);
      }
    }
  }

  /** An EPUB written from the exporter's scratch directory starts with the
      stored `mimetype` entry holding `application/epub+zip`. */
  lemma EpubArchiveStartsWithMarker(
    novelTitle: string, author: string, opfUuid: string, ncxUuid: string, timestamp: string,
    chapters: seq<Chapter>, walk: seq<ScratchPath>)
    requires ArchiveOf(ScratchFiles(novelTitle, author, opfUuid, ncxUuid, timestamp, chapters), walk).Ok?
    ensures var entries := ArchiveOf(ScratchFiles(novelTitle, author, opfUuid, ncxUuid, timestamp, chapters), walk).value;
      entries[0] == Entry(MarkerEntryName, Stored, MimetypeFile(MimetypeText))
  {
    ChapterFilesKeys(chapters, MimetypePath);
    ArchiveLayout(ScratchFiles(novelTitle, author, opfUuid, ncxUuid, timestamp, chapters), walk);
  }
}

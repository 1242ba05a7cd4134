/** `export_novel_to_epub`: loads the chapter files of a novel directory
    into an exporter and exports it. The chapters directory is given as the
    names a directory listing yields, in that order, and the text of every
    file that can be read; a name without text is a file whose reading
    fails, which the loader skips. The text is what reading the file in
    text mode returns: the bytes decoded as UTF-8, with every `\r\n` and
    every lone `\r` already turned into `\n`. */
module Loader {

  import opened Wrappers
  import opened Text
  import opened Epub
  import opened Ocf
  import opened ChapterText
  import opened Listing
  import opened Exporter

  datatype ChaptersDir = ChaptersDir(listing: seq<string>, readable: map<string, string>)

  /** Why the export returns `False`. */
  datatype ExportError =
    | ChaptersDirMissing
    | NoChapters
    | ExportFailed(failure: ExportFailure)

  /** The chapter a readable candidate file gives. */
  function ChapterOf(c: Candidate, content: string): Chapter {
    Chapter(c.number, Title(c.number, content), Body(content))
  }

  /** The chapters added for the candidates, in order, skipping the files
      that cannot be read. */
  function LoadedChapters(readable: map<string, string>, candidates: seq<Candidate>): seq<Chapter> {
    if candidates == [] then []
    else
      var last := candidates[|candidates| - 1];
      LoadedChapters(readable, candidates[..|candidates| - 1])
        + (if last.fileName in readable then [ChapterOf(last, readable[last.fileName])] else [])
  }

  /** The chapters the exporter holds once every file has been read. */
  function ChaptersOf(dir: ChaptersDir): seq<Chapter> {
    LoadedChapters(dir.readable, SortByNumber(Candidates(dir.listing)))
  }

  /** What exporting the novel gives: the archive, or why there is none. */
  function NovelExport(
    dir: Option<ChaptersDir>, outputPath: string, novelTitle: string, author: string,
    opfUuid: string, ncxUuid: string, timestamp: string, walk: seq<ScratchPath>)
    : Result<seq<Entry>, ExportError>
  {
    if dir.None? then Err(ChaptersDirMissing)
    else
      var chapters := ChaptersOf(dir.value);
      if chapters == [] then Err(NoChapters)
      else
        match Export(outputPath, novelTitle, author, opfUuid, ncxUuid, timestamp, chapters, walk)
        case Ok(entries) => Ok(entries)
        case Err(failure) => Err(ExportFailed(failure))
  }

  /** `export_novel_to_epub`; `None` for `dir` is a missing chapters
      directory. The source's `True` is an `Ok` result. */
  method ExportNovel(
    dir: Option<ChaptersDir>, outputPath: string, novelTitle: string, author: string,
    opfUuid: string, ncxUuid: string, timestamp: string, walk: seq<ScratchPath>)
    returns (r: Result<seq<Entry>, ExportError>)
    ensures r == NovelExport(dir, outputPath, novelTitle, author, opfUuid, ncxUuid, timestamp, walk)
  {
    if dir.None? {
      return Err(ChaptersDirMissing);
    }
    var d := dir.value;
    var exporter := new EPubExporter(novelTitle, author);
    var candidates := SelectChapterFiles(d.listing);
    var sorted := SortByNumber(candidates);
    assert sorted[..0] == [];
    for i := 0 to |sorted|
      invariant exporter.chapters == LoadedChapters(d.readable, sorted[..i])
    {
      var c := sorted[i];
      LoadedPrefix(d.readable, sorted, i);
      if c.fileName in d.readable {
        var title, body := ExtractTitle(c.number, d.readable[c.fileName]);
        exporter.AddChapter(c.number, title, body);
      }
    }
    assert sorted[..|sorted|] == sorted;
    if exporter.chapters == [] {
      return Err(NoChapters);
    }
    var archive := exporter.ExportToEpub(outputPath, opfUuid, ncxUuid, timestamp, walk);
    match archive {
      case Ok(entries) => r := Ok(entries);
      case Err(failure) => r := Err(ExportFailed(failure));
    }
  }

  /** `export_novel_to_epub` called without an author: the exporter's
      default author is used. */
  method ExportNovelWithDefaultAuthor(
    dir: Option<ChaptersDir>, outputPath: string, novelTitle: string,
    opfUuid: string, ncxUuid: string, timestamp: string, walk: seq<ScratchPath>)
    returns (r: Result<seq<Entry>, ExportError>)
    ensures r == NovelExport(dir, outputPath, novelTitle, DefaultAuthor, opfUuid, ncxUuid, timestamp, walk)
  {
    r := ExportNovel(dir, outputPath, novelTitle, DefaultAuthor, opfUuid, ncxUuid, timestamp, walk);
  }

  lemma LoadedPrefix(readable: map<string, string>, candidates: seq<Candidate>, i: nat)
    requires i < |candidates|
    ensures var c := candidates[i];
      && (c.fileName !in readable ==> LoadedChapters(readable, candidates[..i + 1]) == LoadedChapters(readable, candidates[..i]))
      && (c.fileName in readable ==>
            LoadedChapters(readable, candidates[..i + 1])
              == LoadedChapters(readable, candidates[..i]) + [ChapterOf(c, readable[c.fileName])])
  {
    assert candidates[..i + 1][..i] == candidates[..i];
    ConcatEmpty(LoadedChapters(readable, candidates[..i]));
  }

  // ---------------------------------------------------------------------
  // Properties

  /** A chapter is loaded exactly when some candidate's file is readable
      and gives it. */
  lemma {:induction false} LoadedIff(readable: map<string, string>, candidates: seq<Candidate>, ch: Chapter)
    ensures ch in LoadedChapters(readable, candidates) <==>
      exists c :: c in candidates && c.fileName in readable && ch == ChapterOf(c, readable[c.fileName])
  {
    if candidates != [] {
      var front := candidates[..|candidates| - 1];
      var last := candidates[|candidates| - 1];
      LoadedIff(readable, front, ch);
      assert candidates == front + [last];
      if exists c :: c in candidates && c.fileName in readable && ch == ChapterOf(c, readable[c.fileName]) {
        var c :| c in candidates && c.fileName in readable && ch == ChapterOf(c, readable[c.fileName]);
        if c != last {
          assert c in front;
        }
      }
    }
  }

  /** The loaded chapters keep the order of the candidates, so sorted
      candidates give chapters in ascending number order. */
  lemma {:induction false} LoadedAscending(readable: map<string, string>, candidates: seq<Candidate>)
    requires SortedByNumber(candidates)
    ensures forall i, j :: 0 <= i < j < |LoadedChapters(readable, candidates)| ==>
      LoadedChapters(readable, candidates)[i].number <= LoadedChapters(readable, candidates)[j].number
  {
    if candidates != [] {
      var front := candidates[..|candidates| - 1];
      var last := candidates[|candidates| - 1];
      LoadedAscending(readable, front);
      var loaded := LoadedChapters(readable, front);
      forall k | 0 <= k < |loaded| ensures loaded[k].number <= last.number {
        LoadedNumberFrom(readable, front, k);
        var m :| 0 <= m < |front| && loaded[k].number == front[m].number;
        assert candidates[m] == front[m];
      }
    }
  }

  /** Every loaded chapter carries the number of some candidate. */
  lemma {:induction false} LoadedNumberFrom(readable: map<string, string>, candidates: seq<Candidate>, k: nat)
    requires k < |LoadedChapters(readable, candidates)|
    ensures exists m :: 0 <= m < |candidates| && LoadedChapters(readable, candidates)[k].number == candidates[m].number
  {
    var front := candidates[..|candidates| - 1];
    var last := candidates[|candidates| - 1];
    var loaded := LoadedChapters(readable, front);
    var added := LoadedStep(readable, candidates);
    if k < |loaded| {
      LoadedNumberFrom(readable, front, k);
      var m :| 0 <= m < |front| && loaded[k].number == front[m].number;
      assert LoadedChapters(readable, candidates)[k] == loaded[k];
      assert candidates[m] == front[m];
    } else {
      assert LoadedChapters(readable, candidates)[k] == added[k - |loaded|];
      assert added[k - |loaded|].number == last.number;
    }
  }

  /** One step of LoadedChapters: the last candidate adds its chapter when
      its file is readable. */
  lemma LoadedStep(readable: map<string, string>, candidates: seq<Candidate>) returns (added: seq<Chapter>)
    requires candidates != []
    ensures var last := candidates[|candidates| - 1];
      && added == (if last.fileName in readable then [ChapterOf(last, readable[last.fileName])] else [])
      && LoadedChapters(readable, candidates) == LoadedChapters(readable, candidates[..|candidates| - 1]) + added
      && forall ch :: ch in added ==> ch.number == last.number
  {
    var last := candidates[|candidates| - 1];
    added := if last.fileName in readable then [ChapterOf(last, readable[last.fileName])] else [];
  }

  /** The exporter receives the chapters in ascending number order. */
  lemma ChaptersAscending(dir: ChaptersDir)
    ensures forall i, j :: 0 <= i < j < |ChaptersOf(dir)| ==> ChaptersOf(dir)[i].number <= ChaptersOf(dir)[j].number
  {
    SortSorted(Candidates(dir.listing));
    LoadedAscending(dir.readable, SortByNumber(Candidates(dir.listing)));
  }

  /** A chapter is exported exactly when a listed, readable file whose name
      gives its number holds a text that gives its title and body. */
  lemma ChaptersFromFiles(dir: ChaptersDir, ch: Chapter)
    ensures ch in ChaptersOf(dir) <==>
      exists name :: name in dir.listing && name in dir.readable
        && ChapterFileNumber(name) == Some(ch.number)
        && ch.title == Title(ch.number, dir.readable[name])
        && ch.content == Body(dir.readable[name])
  {
    var candidates := Candidates(dir.listing);
    var sorted := SortByNumber(candidates);
    SortPermutes(candidates);
    LoadedIff(dir.readable, sorted, ch);
    if ch in ChaptersOf(dir) {
      var c :| c in sorted && c.fileName in dir.readable && ch == ChapterOf(c, dir.readable[c.fileName]);
      assert c in multiset(sorted);
      CandidatesIff(dir.listing, c);
    }
    if exists name :: name in dir.listing && name in dir.readable
        && ChapterFileNumber(name) == Some(ch.number)
        && ch.title == Title(ch.number, dir.readable[name])
        && ch.content == Body(dir.readable[name]) {
      var name :| name in dir.listing && name in dir.readable
        && ChapterFileNumber(name) == Some(ch.number)
        && ch.title == Title(ch.number, dir.readable[name])
        && ch.content == Body(dir.readable[name]);
      var c := Candidate(ch.number, name);
      CandidatesIff(dir.listing, c);
      assert c in multiset(candidates);
      assert c in sorted;
    }
  }

  lemma {:induction false} NothingLoaded(readable: map<string, string>, candidates: seq<Candidate>)
    ensures LoadedChapters(readable, candidates) == [] <==>
      forall c :: c in candidates ==> c.fileName !in readable
  {
    if candidates != [] {
      var front := candidates[..|candidates| - 1];
      NothingLoaded(readable, front);
      assert candidates == front + [candidates[|candidates| - 1]];
    }
  }

  /** The export fails for want of chapters exactly when no listed chapter
      file can be read. */
  lemma NoChaptersIff(
    dir: ChaptersDir, outputPath: string, novelTitle: string, author: string,
    opfUuid: string, ncxUuid: string, timestamp: string, walk: seq<ScratchPath>)
    ensures NovelExport(Some(dir), outputPath, novelTitle, author, opfUuid, ncxUuid, timestamp, walk) == Err(NoChapters) <==>
      forall name :: name in dir.listing && ChapterFileNumber(name).Some? ==> name !in dir.readable
  {
    var candidates := Candidates(dir.listing);
    var sorted := SortByNumber(candidates);
    SortPermutes(candidates);
    NothingLoaded(dir.readable, sorted);
    if ChaptersOf(dir) == [] {
      forall name | name in dir.listing && ChapterFileNumber(name).Some? ensures name !in dir.readable {
        var c := Candidate(ChapterFileNumber(name).value, name);
        CandidatesIff(dir.listing, c);
        assert c in multiset(candidates);
        assert c in sorted;
      }
    } else {
      var c :| c in sorted && c.fileName in dir.readable;
      assert c in multiset(sorted);
      CandidatesIff(dir.listing, c);
    }
  }

  /** A chapter file as the generator writes it, named `chapter_{n}.txt`
      and starting with the line `第{n}章 {t}`, is exported as chapter `n`
      with title `t` and the rest of the file as its text. */
  lemma GeneratedChapterExported(dir: ChaptersDir, n: int, t: string, rest: string)
    requires ChapterFileName(n) in dir.listing && ChapterFileName(n) in dir.readable
    requires dir.readable[ChapterFileName(n)] == Marker(n) + " " + t + "\n" + rest
    requires t != [] && !Text.IsSpace(t[0]) && !Text.IsSpace(t[|t| - 1])
    requires '\n' !in t && !Occurs(Marker(n), t)
    ensures Chapter(n, t, rest) in ChaptersOf(dir)
  {
    var name := ChapterFileName(n);
    ChapterFileNameRoundTrip(n);
    ExtractRoundTrip(n, t, rest);
    assert name in dir.listing && name in dir.readable
      && ChapterFileNumber(name) == Some(n)
      && t == Title(n, dir.readable[name])
      && rest == Body(dir.readable[name]);
    ChaptersFromFiles(dir, Chapter(n, t, rest));
  }

  /** Once some chapter is loaded and the walk yields every scratch file
      once, the export succeeds, and its archive is the one the exporter
      writes for the loaded chapters (see ExportSucceedsOnListing). */
  lemma ExportSucceeds(
    dir: ChaptersDir, outputPath: string, novelTitle: string, author: string,
    opfUuid: string, ncxUuid: string, timestamp: string, walk: seq<ScratchPath>)
    requires ChaptersOf(dir) != [] && HasDirectoryPart(outputPath)
    requires IsListing(walk, ScratchFiles(novelTitle, author, opfUuid, ncxUuid, timestamp, ChaptersOf(dir)))
    ensures ArchiveOf(ScratchFiles(novelTitle, author, opfUuid, ncxUuid, timestamp, ChaptersOf(dir)), walk).Ok?
    ensures NovelExport(Some(dir), outputPath, novelTitle, author, opfUuid, ncxUuid, timestamp, walk)
         == Ok(ArchiveOf(ScratchFiles(novelTitle, author, opfUuid, ncxUuid, timestamp, ChaptersOf(dir)), walk).value)
  {
    var chapters := ChaptersOf(dir);
    var files := ScratchFiles(novelTitle, author, opfUuid, ncxUuid, timestamp, chapters);
    ScratchKeys(novelTitle, author, opfUuid, ncxUuid, timestamp, chapters, MimetypePath);
    ArchiveOfListing(files, walk);
  }

  /** An output path without a directory part makes the export fail even
      when chapters were loaded, whatever the walk yields: creating the
      empty parent directory raises. */
  lemma BareOutputNameFails(
    dir: ChaptersDir, outputPath: string, novelTitle: string, author: string,
    opfUuid: string, ncxUuid: string, timestamp: string, walk: seq<ScratchPath>)
    requires !HasDirectoryPart(outputPath)
    ensures NovelExport(Some(dir), outputPath, novelTitle, author, opfUuid, ncxUuid, timestamp, walk)
         == (if ChaptersOf(dir) == [] then Err(NoChapters) else Err(ExportFailed(NoOutputDirectory)))
  {
  }
}

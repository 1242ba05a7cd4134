/** The exporter object: it collects chapters, writes the EPUB documents
    into a scratch directory one file at a time, then packs the directory.
    The scratch directory is a map from scratch path to document; each
    `Create…` method takes the directory as it stands and returns it with
    its file written. */
module Exporter {

  import opened Wrappers
  import opened Text
  import opened Epub
  import opened Ocf

  const DefaultAuthor: string := "AI小说生成器"

  /** Why `export_to_epub` returns `False`: the output path has no
      directory part, so creating its directory raises before anything is
      written; or the archive names a scratch file that is not there. */
  datatype ExportFailure =
    | NoOutputDirectory
    | MissingScratchFile(path: ScratchPath)

  /** `os.path.dirname(outputPath)` is non-empty exactly when the path holds
      a `/`; `os.makedirs` of the empty name raises. */
  predicate HasDirectoryPart(outputPath: string) {
    '/' in outputPath
  }

  /** What exporting `chapters` to `outputPath` gives: the archive entries,
      or why the export returns `False`. */
  function Export(
    outputPath: string, novelTitle: string, author: string,
    opfUuid: string, ncxUuid: string, timestamp: string,
    chapters: seq<Chapter>, walk: seq<ScratchPath>): Result<seq<Entry>, ExportFailure>
  {
    if !HasDirectoryPart(outputPath) then Err(NoOutputDirectory)
    else
      match ArchiveOf(ScratchFiles(novelTitle, author, opfUuid, ncxUuid, timestamp, chapters), walk)
      case Ok(entries) => Ok(entries)
      case Err(p) => Err(MissingScratchFile(p))
  }

  class EPubExporter {
    const novelTitle: string
    const author: string
    /** The chapters in the order they were added. */
    var chapters: seq<Chapter>

    constructor(novelTitle: string, author: string)
      ensures this.novelTitle == novelTitle && this.author == author
      ensures chapters == []
    {
      this.novelTitle := novelTitle;
      this.author := author;
      chapters := [];
    }

    /** The constructor called without an author. */
    constructor WithDefaultAuthor(novelTitle: string)
      ensures this.novelTitle == novelTitle && this.author == DefaultAuthor
      ensures chapters == []
    {
      this.novelTitle := novelTitle;
      this.author := DefaultAuthor;
      chapters := [];
    }

    /** Appends a chapter; nothing is checked or reordered. */
    method AddChapter(number: int, title: string, content: string)
      modifies this
      ensures chapters == old(chapters) + [Chapter(number, title, content)]
    {
      chapters := chapters + [Chapter(number, title, content)];
    }

    method CreateContainerXml(files: map<ScratchPath, FileData>) returns (out: map<ScratchPath, FileData>)
      ensures out == files[ContainerPath := ContainerFile(ContainerDoc())]
    {
      var container := Container("1.0", "OEBPS/content.opf", PackageMediaType);
      out := files[ContainerPath := ContainerFile(container)];
    }

    method CreateMimetype(files: map<ScratchPath, FileData>) returns (out: map<ScratchPath, FileData>)
      ensures out == files[MimetypePath := MimetypeFile(MimetypeText)]
    {
      out := files[MimetypePath := MimetypeFile("application/epub+zip")];
    }

    /** The package document: metadata, the manifest (fixed items, then one
        item per chapter), the spine and the guide. */
    method CreateContentOpf(files: map<ScratchPath, FileData>, uuid: string) returns (out: map<ScratchPath, FileData>)
      ensures out == files[PackagePath := PackageFile(PackageDoc(novelTitle, author, uuid, chapters))]
    {
      var metadata := Metadata(novelTitle, author, Language, "urn:uuid:" + uuid, "cover");
      var manifest := [ ManifestItem("ncx", "toc.ncx", NcxMediaType),
                        ManifestItem("cover", "cover.xhtml", XhtmlMediaType),
                        ManifestItem("title", "title.xhtml", XhtmlMediaType) ];
      assert chapters[..0] == [];
      assert manifest == Manifest(chapters[..0]);
      for i := 0 to |chapters|
        invariant manifest == Manifest(chapters[..i])
      {
        var c := chapters[i];
        assert chapters[..i + 1] == chapters[..i] + [c];
        ManifestSnoc(chapters[..i], c);
        manifest := manifest + [ManifestItem(ChapterId(c.number), ChapterHref(c.number), XhtmlMediaType)];
      }
      var spine := ["cover", "title"];
      assert spine == Spine(chapters[..0]);
      for i := 0 to |chapters|
        invariant spine == Spine(chapters[..i])
      {
        var c := chapters[i];
        assert chapters[..i + 1] == chapters[..i] + [c];
        SpineSnoc(chapters[..i], c);
        spine := spine + [ChapterId(c.number)];
      }
      var guide := [GuideReference("cover", CoverLabel, "cover.xhtml")];
      assert chapters[..|chapters|] == chapters;
      out := files[PackagePath := PackageFile(Package("2.0", "bookid", metadata, manifest, "ncx", spine, guide))];
    }

    /** The NCX: head, document title, and a nav point for the cover, the
        title page and each chapter in list order. */
    method CreateTocNcx(files: map<ScratchPath, FileData>, uuid: string) returns (out: map<ScratchPath, FileData>)
      ensures out == files[NcxPath := NcxFile(NcxDoc(novelTitle, uuid, chapters))]
    {
      var navMap := [ NavPoint("cover", 1, CoverLabel, "cover.xhtml"),
                      NavPoint("title", 2, TitlePageLabel, "title.xhtml") ];
      assert chapters[..0] == [];
      assert navMap == NavMap(chapters[..0]);
      for i := 0 to |chapters|
        invariant navMap == NavMap(chapters[..i])
      {
        var c := chapters[i];
        assert chapters[..i + 1] == chapters[..i] + [c];
        NavMapSnoc(chapters[..i], c);
        var heading := "第" + Decimal(c.number) + "章 " + c.title;
        navMap := navMap + [NavPoint(ChapterId(c.number), i + 3, heading, ChapterHref(c.number))];
      }
      assert chapters[..|chapters|] == chapters;
      out := files[NcxPath := NcxFile(Ncx("2005-1", "urn:uuid:" + uuid, 1, 0, 0, novelTitle, navMap))];
    }

    /** One page per chapter, in list order; a chapter whose number was
        already written replaces the earlier page. */
    method CreateChapterFiles(files: map<ScratchPath, FileData>) returns (out: map<ScratchPath, FileData>)
      ensures out == files + ChapterFiles(chapters)
    {
      out := files;
      assert chapters[..0] == [];
      assert out == files + ChapterFiles(chapters[..0]);
      for i := 0 to |chapters|
        invariant out == files + ChapterFiles(chapters[..i])
      {
        var c := chapters[i];
        ChapterFilesPrefix(files, chapters, i);
        var heading := ChapterHeading(c);
        var paragraphs := ChapterParagraphs(c.content);
        out := out[ChapterPath(c.number) := XhtmlFile(ChapterPage(heading, heading, paragraphs))];
      }
      assert chapters[..|chapters|] == chapters;
    }

    method CreateCoverPage(files: map<ScratchPath, FileData>) returns (out: map<ScratchPath, FileData>)
      ensures out == files[CoverPath := XhtmlFile(CoverPageOf(novelTitle, author))]
    {
      out := files[CoverPath := XhtmlFile(CoverPage(CoverLabel, novelTitle, author))];
    }

    /** The title page; `timestamp` is the clock reading the source formats
        as `%Y年%m月%d日 %H:%M`. */
    method CreateTitlePage(files: map<ScratchPath, FileData>, timestamp: string) returns (out: map<ScratchPath, FileData>)
      ensures out == files[TitlePath := XhtmlFile(TitlePageOf(novelTitle, author, timestamp, |chapters|))]
    {
      var info := ["生成时间: " + timestamp, "总章节数: " + Decimal(|chapters|)];
      out := files[TitlePath := XhtmlFile(TitlePage(TitlePageLabel, novelTitle, author, info))];
    }

    /** `export_to_epub`: creates the output directory, builds a fresh
        scratch directory, then packs it. The two UUIDs, the clock reading
        and the order in which the directory walk yields the files are
        inputs. The source's `True` is an `Ok` result; its `False` is an
        `Err` saying why. */
    method ExportToEpub(outputPath: string, opfUuid: string, ncxUuid: string, timestamp: string, walk: seq<ScratchPath>)
      returns (r: Result<seq<Entry>, ExportFailure>)
      ensures r == Export(outputPath, novelTitle, author, opfUuid, ncxUuid, timestamp, chapters, walk)
    {
      if !HasDirectoryPart(outputPath) {
        return Err(NoOutputDirectory);
      }
      var files: map<ScratchPath, FileData> := map[];
      files := CreateContainerXml(files);
      files := CreateMimetype(files);
      files := CreateContentOpf(files, opfUuid);
      files := CreateTocNcx(files, ncxUuid);
      files := CreateChapterFiles(files);
      files := CreateCoverPage(files);
      files := CreateTitlePage(files, timestamp);
      ChapterFilesOnlyChapters(chapters);
      WriteOrder(
        ContainerFile(ContainerDoc()), MimetypeFile(MimetypeText),
        PackageFile(PackageDoc(novelTitle, author, opfUuid, chapters)),
        NcxFile(NcxDoc(novelTitle, ncxUuid, chapters)),
        XhtmlFile(CoverPageOf(novelTitle, author)),
        XhtmlFile(TitlePageOf(novelTitle, author, timestamp, |chapters|)),
        ChapterFiles(chapters));
      var archive := CreateArchive(files, walk);
      match archive {
        case Ok(entries) => r := Ok(entries);
        case Err(p) => r := Err(MissingScratchFile(p));
      }
    }
  }

  /** The `<p>` texts of a chapter page, one line at a time. */
  method ChapterParagraphs(content: string) returns (paragraphs: seq<string>)
    ensures paragraphs == Paragraphs(content)
  {
    var lines := Split(content, '\n');
    paragraphs := [];
    assert lines[..0] == [];
    for i := 0 to |lines|
      invariant paragraphs == NonBlankLines(lines[..i])
    {
      var line := Strip(lines[i]);
      NonBlankLinesPrefix(lines, i);
      if line != [] {
        paragraphs := paragraphs + [line];
      }
    }
    assert lines[..|lines|] == lines;
  }

  lemma NonBlankLinesPrefix(lines: seq<string>, i: nat)
    requires i < |lines|
    ensures Strip(lines[i]) == [] ==> NonBlankLines(lines[..i + 1]) == NonBlankLines(lines[..i])
    ensures Strip(lines[i]) != [] ==> NonBlankLines(lines[..i + 1]) == NonBlankLines(lines[..i]) + [Strip(lines[i])]
  {
    assert lines[..i + 1] == lines[..i] + [lines[i]];
    NonBlankLinesAppend(lines[..i], [lines[i]]);
    ParagraphLine(lines[i]);
    ConcatEmpty(NonBlankLines(lines[..i]));
  }

  lemma ParagraphLine(line: string)
    ensures Strip(line) == [] ==> NonBlankLines([line]) == []
    ensures Strip(line) != [] ==> NonBlankLines([line]) == [Strip(line)]
  {
    assert [line][1..] == [];
    ConcatEmpty([Strip(line)]);
  }

  lemma ChapterFilesSnoc(files: map<ScratchPath, FileData>, chapters: seq<Chapter>, c: Chapter)
    ensures files + ChapterFiles(chapters + [c])
         == (files + ChapterFiles(chapters))[ChapterPath(c.number) := XhtmlFile(ChapterPageOf(c))]
  {
    var all := chapters + [c];
    assert all[..|all| - 1] == chapters;
    assert ChapterFiles(all) == ChapterFiles(chapters)[ChapterPath(c.number) := XhtmlFile(ChapterPageOf(c))];
    UnionUpdate(files, ChapterFiles(chapters), ChapterPath(c.number), XhtmlFile(ChapterPageOf(c)));
  }

  lemma ChapterFilesPrefix(files: map<ScratchPath, FileData>, chapters: seq<Chapter>, i: nat)
    requires i < |chapters|
    ensures files + ChapterFiles(chapters[..i + 1])
         == (files + ChapterFiles(chapters[..i]))[ChapterPath(chapters[i].number) := XhtmlFile(ChapterPageOf(chapters[i]))]
  {
    assert chapters[..i + 1] == chapters[..i] + [chapters[i]];
    ChapterFilesSnoc(files, chapters[..i], chapters[i]);
  }

  lemma UnionUpdate<K, V>(a: map<K, V>, b: map<K, V>, k: K, v: V)
    ensures a + b[k := v] == (a + b)[k := v]
  {
  }

  lemma ManifestSnoc(chapters: seq<Chapter>, c: Chapter)
    ensures Manifest(chapters + [c]) == Manifest(chapters) + [ChapterItem(c)]
  {
  }

  lemma SpineSnoc(chapters: seq<Chapter>, c: Chapter)
    ensures Spine(chapters + [c]) == Spine(chapters) + [ChapterId(c.number)]
  {
  }

  lemma NavMapSnoc(chapters: seq<Chapter>, c: Chapter)
    ensures NavMap(chapters + [c]) == NavMap(chapters) + [ChapterNavPoint(c, |chapters|)]
  {
  }

  lemma ChapterFilesOnlyChapters(chapters: seq<Chapter>)
    ensures forall p :: p in ChapterFiles(chapters) ==> p.ChapterPath?
  {
    forall p | p in ChapterFiles(chapters) ensures p.ChapterPath? {
      ChapterFilesKeys(chapters, p);
    }
  }

  /** Writing the cover and title pages after the chapter pages leaves the
      same directory as writing them with the other fixed files. */
  lemma WriteOrder(a: FileData, b: FileData, c: FileData, d: FileData, e: FileData, f: FileData,
                   pages: map<ScratchPath, FileData>)
    requires forall p :: p in pages ==> p.ChapterPath?
    ensures (map[][ContainerPath := a][MimetypePath := b][PackagePath := c][NcxPath := d] + pages)[CoverPath := e][TitlePath := f]
         == map[ContainerPath := a, MimetypePath := b, PackagePath := c, NcxPath := d, CoverPath := e, TitlePath := f] + pages
  {
  }

  /** When the directory walk yields every scratch file once, the export
      succeeds: the stored `mimetype` entry comes first and no two entries
      share a name. */
  lemma ExportSucceedsOnListing(
    novelTitle: string, author: string, opfUuid: string, ncxUuid: string, timestamp: string,
    chapters: seq<Chapter>, walk: seq<ScratchPath>)
    requires IsListing(walk, ScratchFiles(novelTitle, author, opfUuid, ncxUuid, timestamp, chapters))
    ensures ArchiveOf(ScratchFiles(novelTitle, author, opfUuid, ncxUuid, timestamp, chapters), walk).Ok?
    ensures var entries := ArchiveOf(ScratchFiles(novelTitle, author, opfUuid, ncxUuid, timestamp, chapters), walk).value;
      && entries[0] == Entry(MarkerEntryName, Stored, MimetypeFile(MimetypeText))
      && NamesDistinct(entries)
  {
    var files := ScratchFiles(novelTitle, author, opfUuid, ncxUuid, timestamp, chapters);
    ScratchKeys(novelTitle, author, opfUuid, ncxUuid, timestamp, chapters, MimetypePath);
    ArchiveOfListing(files, walk);
    EpubArchiveStartsWithMarker(novelTitle, author, opfUuid, ncxUuid, timestamp, chapters, walk);
  }

  /** When the directory walk yields every scratch file once, every chapter
      has an entry `OEBPS/chapter_N.xhtml` in the archive. */
  lemma ChapterArchived(
    novelTitle: string, author: string, opfUuid: string, ncxUuid: string, timestamp: string,
    chapters: seq<Chapter>, walk: seq<ScratchPath>, k: nat)
    requires IsListing(walk, ScratchFiles(novelTitle, author, opfUuid, ncxUuid, timestamp, chapters))
    requires k < |chapters|
    ensures ArchiveOf(ScratchFiles(novelTitle, author, opfUuid, ncxUuid, timestamp, chapters), walk).Ok?
    ensures "OEBPS/" + ChapterHref(chapters[k].number)
      in Names(ArchiveOf(ScratchFiles(novelTitle, author, opfUuid, ncxUuid, timestamp, chapters), walk).value)
  {
    var files := ScratchFiles(novelTitle, author, opfUuid, ncxUuid, timestamp, chapters);
    var p := ChapterPath(chapters[k].number);
    assert chapters[k] in chapters;
    ScratchKeys(novelTitle, author, opfUuid, ncxUuid, timestamp, chapters, MimetypePath);
    ScratchKeys(novelTitle, author, opfUuid, ncxUuid, timestamp, chapters, p);
    ListingArchiveNames(files, walk, p);
    ChapterArchiveName(chapters[k].number);
  }

  /** An output path without a directory part always makes the export
      return `False`, whatever the chapters; with one, the export returns
      `True` exactly when packing the scratch directory succeeds. */
  lemma ExportOutcome(
    outputPath: string, novelTitle: string, author: string,
    opfUuid: string, ncxUuid: string, timestamp: string,
    chapters: seq<Chapter>, walk: seq<ScratchPath>)
    ensures !HasDirectoryPart(outputPath) ==>
      Export(outputPath, novelTitle, author, opfUuid, ncxUuid, timestamp, chapters, walk) == Err(NoOutputDirectory)
    ensures HasDirectoryPart(outputPath) ==>
      (Export(outputPath, novelTitle, author, opfUuid, ncxUuid, timestamp, chapters, walk).Ok? <==>
       ArchiveOf(ScratchFiles(novelTitle, author, opfUuid, ncxUuid, timestamp, chapters), walk).Ok?)
  {
  }
}

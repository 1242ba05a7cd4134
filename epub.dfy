/** The documents an EPUB 2 book is made of, as the exporter builds them:
    the OCF container descriptor, the OPF package document (metadata,
    manifest, spine, guide), the NCX navigation map and the XHTML pages,
    each as a record rather than as XML text. The functions here say what
    each document holds for a given list of chapters; the lemmas say how
    the documents agree with one another. */
module Epub {

  import opened Text

  /** One entry of the exporter's chapter list. */
  datatype Chapter = Chapter(number: int, title: string, content: string)

  const MimetypeText: string := "application/epub+zip"
  const PackageMediaType: string := "application/oebps-package+xml"
  const NcxMediaType: string := "application/x-dtbncx+xml"
  const XhtmlMediaType: string := "application/xhtml+xml"
  const Language: string := "zh-CN"
  /** The Chinese labels of the two fixed pages: "cover" and "title page". */
  const CoverLabel: string := "封面"
  const TitlePageLabel: string := "标题页"

  /** META-INF/container.xml: the one rootfile it points at. */
  datatype Container = Container(version: string, rootFullPath: string, rootMediaType: string)

  datatype ManifestItem = ManifestItem(id: string, href: string, mediaType: string)

  datatype Metadata = Metadata(
    title: string, creator: string, language: string, identifier: string, coverMeta: string)

  datatype GuideReference = GuideReference(kind: string, title: string, href: string)

  /** OEBPS/content.opf */
  datatype Package = Package(
    version: string,
    uniqueIdentifier: string,
    metadata: Metadata,
    manifest: seq<ManifestItem>,
    spineToc: string,
    spine: seq<string>,
    guide: seq<GuideReference>)

  datatype NavPoint = NavPoint(id: string, playOrder: nat, navLabel: string, src: string)

  /** OEBPS/toc.ncx */
  datatype Ncx = Ncx(
    version: string,
    uid: string,
    depth: nat,
    totalPageCount: nat,
    maxPageNumber: nat,
    docTitle: string,
    navMap: seq<NavPoint>)

  /** The XHTML pages: the text of their `<title>`, headings and paragraphs. */
  datatype Page =
    | ChapterPage(title: string, heading: string, paragraphs: seq<string>)
    | CoverPage(title: string, bookTitle: string, author: string)
    | TitlePage(title: string, bookTitle: string, author: string, info: seq<string>)

  /** What a file of the scratch directory holds. */
  datatype FileData =
    | MimetypeFile(text: string)
    | ContainerFile(container: Container)
    | PackageFile(package: Package)
    | NcxFile(ncx: Ncx)
    | XhtmlFile(page: Page)

  /** The files of the scratch directory; chapter pages are keyed by number. */
  datatype ScratchPath =
    | MimetypePath
    | ContainerPath
    | PackagePath
    | NcxPath
    | CoverPath
    | TitlePath
    | ChapterPath(number: int)

  /** `chapter_{number}`: the manifest id, spine idref and navPoint id of a chapter. */
  function ChapterId(number: int): string {
    "chapter_" + Decimal(number)
  }

  /** `chapter_{number}.xhtml`, relative to OEBPS/. */
  function ChapterHref(number: int): string {
    ChapterId(number) + ".xhtml"
  }

  /** The name of a scratch file inside the archive, relative to the scratch root. */
  function ArchiveName(p: ScratchPath): string {
    match p
    case MimetypePath => "mimetype"
    case ContainerPath => "META-INF/container.xml"
    case PackagePath => "OEBPS/content.opf"
    case NcxPath => "OEBPS/toc.ncx"
    case CoverPath => "OEBPS/cover.xhtml"
    case TitlePath => "OEBPS/title.xhtml"
    case ChapterPath(n) => "OEBPS/" + ChapterHref(n)
  }

  /** `第{number}章 {title}`: the chapter's NCX label, page title and heading. */
  function ChapterHeading(c: Chapter): string {
    "第" + Decimal(c.number) + "章 " + c.title
  }

  /** The stripped, non-blank lines, in order. */
  function NonBlankLines(lines: seq<string>): seq<string> {
    if lines == [] then []
    else
      var line := Strip(lines[0]);
      (if line == [] then [] else [line]) + NonBlankLines(lines[1..])
  }

  /** The `<p>` texts of a chapter page: one per line of `content.split('\n')`
      that is not blank, stripped. */
  function Paragraphs(content: string): seq<string> {
    NonBlankLines(Split(content, '\n'))
  }

  function FixedManifest(): seq<ManifestItem> {
    [ ManifestItem("ncx", "toc.ncx", NcxMediaType),
      ManifestItem("cover", "cover.xhtml", XhtmlMediaType),
      ManifestItem("title", "title.xhtml", XhtmlMediaType) ]
  }

  function ChapterItem(c: Chapter): ManifestItem {
    ManifestItem(ChapterId(c.number), ChapterHref(c.number), XhtmlMediaType)
  }

  /** The manifest: the three fixed items, then one item per chapter in list order. */
  function Manifest(chapters: seq<Chapter>): seq<ManifestItem> {
    FixedManifest() + seq(|chapters|, i requires 0 <= i < |chapters| => ChapterItem(chapters[i]))
  }

  /** The spine: cover, title page, then the chapters in list order. */
  function Spine(chapters: seq<Chapter>): seq<string> {
    ["cover", "title"] + seq(|chapters|, i requires 0 <= i < |chapters| => ChapterId(chapters[i].number))
  }

  function ChapterNavPoint(c: Chapter, i: nat): NavPoint {
    NavPoint(ChapterId(c.number), i + 3, ChapterHeading(c), ChapterHref(c.number))
  }

  /** The navMap: cover (play order 1), title page (2), then chapter `i` (`i + 3`). */
  function NavMap(chapters: seq<Chapter>): seq<NavPoint> {
    [ NavPoint("cover", 1, CoverLabel, "cover.xhtml"),
      NavPoint("title", 2, TitlePageLabel, "title.xhtml") ]
    + seq(|chapters|, i requires 0 <= i < |chapters| => ChapterNavPoint(chapters[i], i))
  }

  function ContainerDoc(): Container {
    Container("1.0", "OEBPS/content.opf", PackageMediaType)
  }

  function PackageDoc(novelTitle: string, author: string, uuid: string, chapters: seq<Chapter>): Package {
    Package(
      "2.0", "bookid",
      Metadata(novelTitle, author, Language, "urn:uuid:" + uuid, "cover"),
      Manifest(chapters),
      "ncx", Spine(chapters),
      [GuideReference("cover", CoverLabel, "cover.xhtml")])
  }

  function NcxDoc(novelTitle: string, uuid: string, chapters: seq<Chapter>): Ncx {
    Ncx("2005-1", "urn:uuid:" + uuid, 1, 0, 0, novelTitle, NavMap(chapters))
  }

  function ChapterPageOf(c: Chapter): Page {
    ChapterPage(ChapterHeading(c), ChapterHeading(c), Paragraphs(c.content))
  }

  function CoverPageOf(novelTitle: string, author: string): Page {
    CoverPage(CoverLabel, novelTitle, author)
  }

  /** The title page's two info lines: "generated at" and "total chapters". */
  function TitlePageOf(novelTitle: string, author: string, timestamp: string, chapterCount: nat): Page {
    TitlePage(TitlePageLabel, novelTitle, author,
              ["生成时间: " + timestamp, "总章节数: " + Decimal(chapterCount)])
  }

  function Numbers(chapters: seq<Chapter>): set<int> {
    set c | c in chapters :: c.number
  }

  /** The last chapter of the list with the given number. */
  function LastWithNumber(chapters: seq<Chapter>, n: int): (c: Chapter)
    requires n in Numbers(chapters)
    ensures c in chapters && c.number == n
  {
    var last := chapters[|chapters| - 1];
    if last.number == n then last
    else
      assert n in Numbers(chapters[..|chapters| - 1]) by {
        var d :| d in chapters && d.number == n;
        var k :| 0 <= k < |chapters| && chapters[k] == d;
        assert chapters[..|chapters| - 1][k] == d;
      }
      LastWithNumber(chapters[..|chapters| - 1], n)
  }

  /** The chapter pages left in the scratch directory after each chapter's
      page is written in list order, a later page replacing an earlier one
      of the same name (see ChapterFilesLastWins). */
  function ChapterFiles(chapters: seq<Chapter>): map<ScratchPath, FileData> {
    if chapters == [] then map[]
    else
      var last := chapters[|chapters| - 1];
      ChapterFiles(chapters[..|chapters| - 1])[ChapterPath(last.number) := XhtmlFile(ChapterPageOf(last))]
  }

  /** Every file of the scratch directory once the build is complete. */
  function ScratchFiles(
    novelTitle: string, author: string, opfUuid: string, ncxUuid: string, timestamp: string,
    chapters: seq<Chapter>): map<ScratchPath, FileData>
  {
    FixedFiles(novelTitle, author, opfUuid, ncxUuid, timestamp, chapters) + ChapterFiles(chapters)
  }

  /** The scratch files other than the chapter pages. */
  function FixedFiles(
    novelTitle: string, author: string, opfUuid: string, ncxUuid: string, timestamp: string,
    chapters: seq<Chapter>): map<ScratchPath, FileData>
  {
    map[ ContainerPath := ContainerFile(ContainerDoc()),
         MimetypePath := MimetypeFile(MimetypeText),
         PackagePath := PackageFile(PackageDoc(novelTitle, author, opfUuid, chapters)),
         NcxPath := NcxFile(NcxDoc(novelTitle, ncxUuid, chapters)),
         CoverPath := XhtmlFile(CoverPageOf(novelTitle, author)),
         TitlePath := XhtmlFile(TitlePageOf(novelTitle, author, timestamp, |chapters|)) ]
  }

  function Ids(items: seq<ManifestItem>): seq<string> {
    seq(|items|, i requires 0 <= i < |items| => items[i].id)
  }

  predicate DistinctIds(items: seq<ManifestItem>) {
    forall i, j :: 0 <= i < j < |items| ==> items[i].id != items[j].id
  }

  predicate DistinctNumbers(chapters: seq<Chapter>) {
    forall i, j :: 0 <= i < j < |chapters| ==> chapters[i].number != chapters[j].number
  }

  // ---------------------------------------------------------------------
  // Identifiers

  /** Chapter ids determine the chapter number. */
  lemma ChapterIdInjective(a: int, b: int)
    ensures ChapterId(a) == ChapterId(b) <==> a == b
  {
    if ChapterId(a) == ChapterId(b) {
      assert Decimal(a) == ChapterId(a)[8..];
      assert Decimal(b) == ChapterId(b)[8..];
      DecimalInjective(a, b);
    }
  }

  /** No chapter id is one of the fixed ids `ncx`, `cover`, `title`. */
  lemma ChapterIdNotFixed(n: int)
    ensures ChapterId(n) != "ncx" && ChapterId(n) != "cover" && ChapterId(n) != "title"
  {
    assert |ChapterId(n)| >= 9;
  }

  /** Distinct scratch files have distinct names in the archive, and only
      the marker file is called `mimetype`. */
  lemma ArchiveNameInjective(p: ScratchPath, q: ScratchPath)
    ensures ArchiveName(p) == ArchiveName(q) <==> p == q
  {
    if ArchiveName(p) == ArchiveName(q) {
      if p.ChapterPath? && q.ChapterPath? {
        ChapterNameParts(p.number);
        ChapterNameParts(q.number);
        ChapterIdInjective(p.number, q.number);
      } else if p.ChapterPath? {
        ChapterNameShape(p.number);
        FixedNameShape(q);
      } else if q.ChapterPath? {
        ChapterNameShape(q.number);
        FixedNameShape(p);
      } else if p != q {
        FixedNamesDistinct(p, q);
      }
    }
  }

  lemma ChapterArchiveName(n: int)
    ensures ArchiveName(ChapterPath(n)) == "OEBPS/" + ChapterHref(n)
  {
  }

  lemma ChapterNameParts(n: int)
    ensures |ArchiveName(ChapterPath(n))| >= 12
    ensures ArchiveName(ChapterPath(n))[6..|ArchiveName(ChapterPath(n))| - 6] == ChapterId(n)
  {
  }

  lemma ChapterNameShape(n: int)
    ensures |ArchiveName(ChapterPath(n))| > 8 && ArchiveName(ChapterPath(n))[..8] == "OEBPS/ch"
  {
  }

  lemma FixedNameShape(p: ScratchPath)
    requires !p.ChapterPath?
    ensures |ArchiveName(p)| < 8 || ArchiveName(p)[..8] != "OEBPS/ch"
  {
    match p
    case MimetypePath =>
      assert ArchiveName(p)[0] == 'm';
    case ContainerPath =>
      assert ArchiveName(p)[0] == 'M';
    case PackagePath =>
      assert ArchiveName(p)[7] == 'o';
    case NcxPath =>
      assert ArchiveName(p)[6] == 't';
    case CoverPath =>
      assert ArchiveName(p)[7] == 'o';
    case TitlePath =>
      assert ArchiveName(p)[6] == 't';
  }

  /** The length of a name and its ninth character tell the fixed names apart. */
  function NameSignature(name: string): (int, char) {
    (|name|, if |name| > 8 then name[8] else ' ')
  }

  lemma FixedSignature(p: ScratchPath)
    requires !p.ChapterPath?
    ensures NameSignature(ArchiveName(p)) ==
      match p
      case MimetypePath => (8, ' ')
      case ContainerPath => (22, '/')
      case PackagePath => (17, 'n')
      case NcxPath => (13, 'c')
      case CoverPath => (17, 'v')
      case TitlePath => (17, 't')
      case ChapterPath(_) => (0, ' ')
  {
    match p
    case MimetypePath =>
    case ContainerPath =>
      assert ArchiveName(p)[8] == '/';
    case PackagePath =>
      assert ArchiveName(p)[8] == 'n';
    case NcxPath =>
      assert ArchiveName(p)[8] == 'c';
    case CoverPath =>
      assert ArchiveName(p)[8] == 'v';
    case TitlePath =>
      assert ArchiveName(p)[8] == 't';
  }

  lemma FixedNamesDistinct(p: ScratchPath, q: ScratchPath)
    requires !p.ChapterPath? && !q.ChapterPath? && p != q
    ensures ArchiveName(p) != ArchiveName(q)
  {
    FixedSignature(p);
    FixedSignature(q);
  }

  // ---------------------------------------------------------------------
  // The package document

  /** The manifest is `ncx`, `cover`, `title`, then `chapter_N`/`chapter_N.xhtml`
      for each chapter in list order: 3 + |chapters| items. */
  lemma ManifestLayout(chapters: seq<Chapter>)
    ensures |Manifest(chapters)| == 3 + |chapters|
    ensures Ids(Manifest(chapters)[..3]) == ["ncx", "cover", "title"]
    ensures forall i :: 0 <= i < |chapters| ==>
      Manifest(chapters)[3 + i] == ManifestItem(ChapterId(chapters[i].number), ChapterHref(chapters[i].number), XhtmlMediaType)
  {
  }

  /** The spine lists every manifest item but the NCX, in manifest order. */
  lemma SpineFollowsManifest(chapters: seq<Chapter>)
    ensures Spine(chapters) == Ids(Manifest(chapters)[1..])
  {
  }

  /** Every spine idref names a manifest item. */
  lemma SpineResolves(chapters: seq<Chapter>)
    ensures forall k :: 0 <= k < |Spine(chapters)| ==> Spine(chapters)[k] in Ids(Manifest(chapters))
  {
    var m := Manifest(chapters);
    forall k | 0 <= k < |Spine(chapters)| ensures Spine(chapters)[k] in Ids(m) {
      assert Ids(m)[k + 1] == Spine(chapters)[k];
    }
  }

  /** The manifest has no duplicate id exactly when no two chapters share a
      number: adding two chapters with the same number gives a manifest
      with a repeated id, which the exporter does not prevent. */
  lemma ManifestIdsDistinctIff(chapters: seq<Chapter>)
    ensures DistinctIds(Manifest(chapters)) <==> DistinctNumbers(chapters)
  {
    if DistinctNumbers(chapters) {
      DistinctNumbersGiveDistinctIds(chapters);
    } else {
      SharedNumberRepeatsId(chapters);
    }
  }

  lemma DistinctNumbersGiveDistinctIds(chapters: seq<Chapter>)
    requires DistinctNumbers(chapters)
    ensures DistinctIds(Manifest(chapters))
  {
    var m := Manifest(chapters);
    assert |m| == 3 + |chapters|;
    forall i, j | 0 <= i < j < |m| ensures m[i].id != m[j].id {
      ManifestIdAt(chapters, i);
      ManifestIdAt(chapters, j);
      if j >= 3 {
        ChapterIdNotFixed(chapters[j - 3].number);
        if i >= 3 {
          ChapterIdInjective(chapters[i - 3].number, chapters[j - 3].number);
        }
      }
    }
  }

  lemma SharedNumberRepeatsId(chapters: seq<Chapter>)
    requires !DistinctNumbers(chapters)
    ensures !DistinctIds(Manifest(chapters))
  {
    var i, j :| 0 <= i < j < |chapters| && chapters[i].number == chapters[j].number;
    var m := Manifest(chapters);
    ManifestChapterItem(chapters, i);
    ManifestChapterItem(chapters, j);
    assert ChapterItem(chapters[i]) == ChapterItem(chapters[j]);
    assert 3 + i < 3 + j < |m| && m[3 + i].id == m[3 + j].id;
  }

  lemma ManifestChapterItem(chapters: seq<Chapter>, i: nat)
    requires i < |chapters|
    ensures |Manifest(chapters)| == 3 + |chapters| && Manifest(chapters)[3 + i] == ChapterItem(chapters[i])
  {
  }

  lemma ManifestFixedHrefs(chapters: seq<Chapter>)
    ensures |Manifest(chapters)| == 3 + |chapters|
    ensures Manifest(chapters)[0].href == "toc.ncx"
    ensures Manifest(chapters)[1].href == "cover.xhtml"
    ensures Manifest(chapters)[2].href == "title.xhtml"
  {
  }

  /** The id of the manifest item at position `k`. */
  lemma ManifestIdAt(chapters: seq<Chapter>, k: nat)
    requires k < 3 + |chapters|
    ensures |Manifest(chapters)| == 3 + |chapters|
    ensures k < 3 ==> Manifest(chapters)[k].id == ["ncx", "cover", "title"][k]
    ensures k >= 3 ==> Manifest(chapters)[k].id == ChapterId(chapters[k - 3].number)
  {
  }

  // ---------------------------------------------------------------------
  // The navigation map

  /** Play orders are 1, 2, 3, ... in navMap order, so they are dense and
      strictly increasing; the navMap follows the spine item for item and
      points each entry at the file of the manifest item with that id. */
  lemma NavMapFollowsSpine(chapters: seq<Chapter>)
    ensures |NavMap(chapters)| == |Spine(chapters)| == 2 + |chapters|
    ensures forall k :: 0 <= k < |NavMap(chapters)| ==>
      && NavMap(chapters)[k].playOrder == k + 1
      && NavMap(chapters)[k].id == Spine(chapters)[k]
      && NavMap(chapters)[k].src == Manifest(chapters)[k + 1].href
    ensures forall k, l :: 0 <= k < l < |NavMap(chapters)| ==>
      NavMap(chapters)[k].playOrder < NavMap(chapters)[l].playOrder
  {
  }

  /** A chapter's NCX label is the heading and title of its page. */
  lemma NavLabelIsHeading(chapters: seq<Chapter>, i: nat)
    requires i < |chapters|
    ensures NavMap(chapters)[i + 2].navLabel == ChapterPageOf(chapters[i]).heading
    ensures ChapterPageOf(chapters[i]).heading == ChapterPageOf(chapters[i]).title
    ensures NavMap(chapters)[i + 2].navLabel == "第" + Decimal(chapters[i].number) + "章 " + chapters[i].title
  {
  }

  // ---------------------------------------------------------------------
  // Chapter pages

  lemma {:induction false} NonBlankLinesAppend(a: seq<string>, b: seq<string>)
    ensures NonBlankLines(a + b) == NonBlankLines(a) + NonBlankLines(b)
  {
    if a != [] {
      var ab := a + b;
      assert ab[0] == a[0];
      assert ab[1..] == a[1..] + b;
      NonBlankLinesAppend(a[1..], b);
      var head := NonBlankLines([a[0]]);
      NonBlankLinesCons(a);
      NonBlankLinesCons(ab);
      assert NonBlankLines(ab) == head + (NonBlankLines(a[1..]) + NonBlankLines(b));
    } else {
      assert a + b == b;
    }
  }

  /** The first line's contribution comes first. */
  lemma NonBlankLinesCons(lines: seq<string>)
    requires lines != []
    ensures NonBlankLines(lines) == NonBlankLines([lines[0]]) + NonBlankLines(lines[1..])
  {
    assert [lines[0]][1..] == [];
  }

  /** A single line gives its stripped text as one paragraph, or nothing
      when it is blank. */
  lemma ParagraphsOfLine(line: string)
    requires '\n' !in line
    ensures Paragraphs(line) == if IsBlank(line) then [] else [Strip(line)]
  {
    SplitNoSeparator(line, '\n');
    StripEmptyIffBlank(line);
    assert [line][1..] == [];
    assert NonBlankLines([line]) == (if Strip(line) == [] then [] else [Strip(line)]) + NonBlankLines([]);
  }

  /** The paragraphs of two blocks of text joined by a newline are those of
      the first block followed by those of the second: input order is kept. */
  lemma ParagraphsAppend(a: string, b: string)
    ensures Paragraphs(a + "\n" + b) == Paragraphs(a) + Paragraphs(b)
  {
    SplitAppend(a, b, '\n');
    NonBlankLinesAppend(Split(a, '\n'), Split(b, '\n'));
  }

  /** A paragraph text as the page holds it: non-empty, neither starting
      nor ending with whitespace, without a newline. */
  predicate Trimmed(p: string) {
    p != [] && !IsSpace(p[0]) && !IsSpace(p[|p| - 1]) && '\n' !in p
  }

  /** Every paragraph is non-empty, neither starts nor ends with whitespace,
      and holds no newline. */
  lemma ParagraphsTrimmed(content: string)
    ensures forall k :: 0 <= k < |Paragraphs(content)| ==> Trimmed(Paragraphs(content)[k])
  {
    SplitPiecesFree(content, '\n');
    NonBlankLinesTrimmed(Split(content, '\n'));
  }

  lemma StripKeepsNoNewline(line: string)
    requires '\n' !in line
    ensures Strip(line) != [] ==> Trimmed(Strip(line))
  {
    StripInfix(line);
    var i, j :| 0 <= i <= j <= |line| && Strip(line) == line[i..j];
    assert forall c :: c in line[i..j] ==> c in line;
  }

  lemma {:induction false} NonBlankLinesTrimmed(lines: seq<string>)
    requires forall k :: 0 <= k < |lines| ==> '\n' !in lines[k]
    ensures forall k :: 0 <= k < |NonBlankLines(lines)| ==> Trimmed(NonBlankLines(lines)[k])
  {
    if lines != [] {
      NonBlankLinesTrimmed(lines[1..]);
      StripKeepsNoNewline(lines[0]);
    }
  }

  predicate AllBlank(lines: seq<string>) {
    forall k :: 0 <= k < |lines| ==> IsBlank(lines[k])
  }

  /** A chapter page has no paragraph exactly when its text is all whitespace. */
  lemma NoParagraphsIffBlank(content: string)
    ensures Paragraphs(content) == [] <==> IsBlank(content)
  {
    BlankIffLinesBlank(content);
    NonBlankLinesEmpty(Split(content, '\n'));
  }

  lemma {:induction false} NonBlankLinesEmpty(lines: seq<string>)
    ensures NonBlankLines(lines) == [] <==> AllBlank(lines)
  {
    if lines != [] {
      NonBlankLinesEmpty(lines[1..]);
      StripEmptyIffBlank(lines[0]);
      AllBlankCons(lines[0], lines[1..]);
      assert lines == [lines[0]] + lines[1..];
    }
  }

  lemma BlankCons(c: char, t: string)
    ensures IsBlank([c] + t) <==> IsSpace(c) && IsBlank(t)
  {
    if IsSpace(c) && IsBlank(t) {
      forall k | 0 <= k < |[c] + t| ensures IsSpace(([c] + t)[k]) {
        if k > 0 {
          assert ([c] + t)[k] == t[k - 1];
        }
      }
    }
    if IsBlank([c] + t) {
      assert ([c] + t)[0] == c;
      forall k | 0 <= k < |t| ensures IsSpace(t[k]) {
        assert ([c] + t)[k + 1] == t[k];
      }
    }
  }

  lemma AllBlankCons(line: string, lines: seq<string>)
    ensures AllBlank([line] + lines) <==> IsBlank(line) && AllBlank(lines)
  {
    var all := [line] + lines;
    if AllBlank(all) {
      assert all[0] == line;
      forall k | 0 <= k < |lines| ensures IsBlank(lines[k]) {
        assert all[k + 1] == lines[k];
      }
    }
    if IsBlank(line) && AllBlank(lines) {
      forall k | 0 <= k < |all| ensures IsBlank(all[k]) {
        if k > 0 {
          assert all[k] == lines[k - 1];
        }
      }
    }
  }

  /** Text is all whitespace exactly when each of its lines is. */
  lemma {:induction false} BlankIffLinesBlank(s: string)
    ensures IsBlank(s) <==> AllBlank(Split(s, '\n'))
  {
    if s != [] {
      BlankIffLinesBlank(s[1..]);
      var rest := Split(s[1..], '\n');
      BlankCons(s[0], s[1..]);
      assert s == [s[0]] + s[1..];
      if s[0] == '\n' {
        AllBlankCons([], rest);
      } else {
        AllBlankCons([s[0]] + rest[0], rest[1..]);
        AllBlankCons(rest[0], rest[1..]);
        BlankCons(s[0], rest[0]);
        assert rest == [rest[0]] + rest[1..];
      }
    }
  }

  // ---------------------------------------------------------------------
  // The scratch directory

  lemma {:induction false} LastWithNumberOfAppend(chapters: seq<Chapter>, c: Chapter, n: int)
    requires n in Numbers(chapters + [c])
    ensures n == c.number ==> LastWithNumber(chapters + [c], n) == c
    ensures n != c.number ==> n in Numbers(chapters) && LastWithNumber(chapters + [c], n) == LastWithNumber(chapters, n)
  {
    var all := chapters + [c];
    assert all[..|all| - 1] == chapters;
    if n != c.number {
      var d :| d in all && d.number == n;
      assert d in chapters;
    }
  }

  lemma NumbersAppend(chapters: seq<Chapter>, c: Chapter)
    ensures Numbers(chapters + [c]) == Numbers(chapters) + {c.number}
  {
    var all := chapters + [c];
    forall n | n in Numbers(all) ensures n in Numbers(chapters) + {c.number} {
      var d :| d in all && d.number == n;
    }
    forall n | n in Numbers(chapters) ensures n in Numbers(all) {
      var d :| d in chapters && d.number == n;
      assert d in all;
    }
    assert c in all;
  }

  /** One step of ChapterFiles: the last chapter's page is written over
      the pages of the chapters before it. */
  lemma ChapterFilesSnocStep(chapters: seq<Chapter>)
    requires chapters != []
    ensures var last := chapters[|chapters| - 1];
      ChapterFiles(chapters) ==
        ChapterFiles(chapters[..|chapters| - 1])[ChapterPath(last.number) := XhtmlFile(ChapterPageOf(last))]
  {
  }

  /** The chapter files are one per distinct chapter number. */
  lemma {:induction false} ChapterFilesKeys(chapters: seq<Chapter>, p: ScratchPath)
    ensures p in ChapterFiles(chapters) <==> p.ChapterPath? && p.number in Numbers(chapters)
  {
    if chapters != [] {
      var front := chapters[..|chapters| - 1];
      var last := chapters[|chapters| - 1];
      assert chapters == front + [last];
      ChapterFilesSnocStep(chapters);
      ChapterFilesKeys(front, p);
      NumbersAppend(front, last);
    }
  }

  /** One step of LastWithNumber: the last chapter if it has the number,
      otherwise the search goes on among the chapters before it. */
  lemma LastWithNumberStep(chapters: seq<Chapter>, n: int)
    requires n in Numbers(chapters)
    ensures chapters != []
    ensures chapters[|chapters| - 1].number == n ==> LastWithNumber(chapters, n) == chapters[|chapters| - 1]
    ensures chapters[|chapters| - 1].number != n ==>
      n in Numbers(chapters[..|chapters| - 1]) &&
      LastWithNumber(chapters, n) == LastWithNumber(chapters[..|chapters| - 1], n)
  {
    var c :| c in chapters && c.number == n;
  }

  /** Each chapter file holds the page of the last chapter with its number. */
  lemma {:induction false} ChapterFilesLastWins(chapters: seq<Chapter>, p: ScratchPath)
    requires p.ChapterPath? && p.number in Numbers(chapters)
    ensures p in ChapterFiles(chapters)
    ensures ChapterFiles(chapters)[p] == XhtmlFile(ChapterPageOf(LastWithNumber(chapters, p.number)))
  {
    ChapterFilesKeys(chapters, p);
    LastWithNumberStep(chapters, p.number);
    ChapterFilesSnocStep(chapters);
    var front := chapters[..|chapters| - 1];
    if chapters[|chapters| - 1].number != p.number {
      ChapterFilesLastWins(front, p);
    }
  }

  /** When no two chapters share a number, every chapter has its own page
      in the scratch directory. */
  lemma ChapterPagePresent(chapters: seq<Chapter>, i: nat)
    requires DistinctNumbers(chapters) && i < |chapters|
    ensures ChapterPath(chapters[i].number) in ChapterFiles(chapters)
    ensures ChapterFiles(chapters)[ChapterPath(chapters[i].number)] == XhtmlFile(ChapterPageOf(chapters[i]))
  {
    var n := chapters[i].number;
    assert chapters[i] in chapters;
    ChapterFilesLastWins(chapters, ChapterPath(n));
    LastIsOnlyWithNumber(chapters, i);
  }

  lemma {:induction false} LastIsOnlyWithNumber(chapters: seq<Chapter>, i: nat)
    requires DistinctNumbers(chapters) && i < |chapters|
    ensures chapters[i].number in Numbers(chapters)
    ensures LastWithNumber(chapters, chapters[i].number) == chapters[i]
  {
    var last := |chapters| - 1;
    if i != last {
      var front := chapters[..last];
      assert front[i] == chapters[i];
      LastIsOnlyWithNumber(front, i);
    }
  }

  /** The archive will hold a file at `OEBPS/<href>`. */
  predicate HasFile(files: map<ScratchPath, FileData>, href: string) {
    exists p :: p in files && ArchiveName(p) == "OEBPS/" + href
  }

  /** The scratch directory holds the six fixed files and one page per
      distinct chapter number. */
  lemma ScratchKeys(
    novelTitle: string, author: string, opfUuid: string, ncxUuid: string, timestamp: string,
    chapters: seq<Chapter>, p: ScratchPath)
    ensures p in ScratchFiles(novelTitle, author, opfUuid, ncxUuid, timestamp, chapters)
       <==> !p.ChapterPath? || p.number in Numbers(chapters)
  {
    FixedKeys(novelTitle, author, opfUuid, ncxUuid, timestamp, chapters, p);
    ChapterFilesKeys(chapters, p);
  }

  lemma FixedKeys(
    novelTitle: string, author: string, opfUuid: string, ncxUuid: string, timestamp: string,
    chapters: seq<Chapter>, p: ScratchPath)
    ensures p in FixedFiles(novelTitle, author, opfUuid, ncxUuid, timestamp, chapters) <==> !p.ChapterPath?
  {
  }

  lemma HasFileWitness(files: map<ScratchPath, FileData>, p: ScratchPath, href: string)
    requires p in files && ArchiveName(p) == "OEBPS/" + href
    ensures HasFile(files, href)
  {
  }

  /** Every href of the manifest names a file of the scratch directory
      (under OEBPS/). */
  lemma ManifestResolves(
    novelTitle: string, author: string, opfUuid: string, ncxUuid: string, timestamp: string,
    chapters: seq<Chapter>)
    ensures forall k :: 0 <= k < |Manifest(chapters)| ==>
      HasFile(ScratchFiles(novelTitle, author, opfUuid, ncxUuid, timestamp, chapters), Manifest(chapters)[k].href)
  {
    forall k | 0 <= k < |Manifest(chapters)|
      ensures HasFile(ScratchFiles(novelTitle, author, opfUuid, ncxUuid, timestamp, chapters), Manifest(chapters)[k].href)
    {
      ManifestItemResolves(novelTitle, author, opfUuid, ncxUuid, timestamp, chapters, k);
    }
  }

  lemma ManifestItemResolves(
    novelTitle: string, author: string, opfUuid: string, ncxUuid: string, timestamp: string,
    chapters: seq<Chapter>, k: nat)
    requires k < |Manifest(chapters)|
    ensures HasFile(ScratchFiles(novelTitle, author, opfUuid, ncxUuid, timestamp, chapters), Manifest(chapters)[k].href)
  {
    var p := ManifestItemPath(chapters, k);
    if k >= 3 {
      assert chapters[k - 3] in chapters;
    }
    ScratchKeys(novelTitle, author, opfUuid, ncxUuid, timestamp, chapters, p);
    HasFileWitness(ScratchFiles(novelTitle, author, opfUuid, ncxUuid, timestamp, chapters), p, Manifest(chapters)[k].href);
  }

  /** The scratch file a manifest item stands for. */
  function ManifestItemPath(chapters: seq<Chapter>, k: nat): (p: ScratchPath)
    requires k < |Manifest(chapters)|
    ensures ArchiveName(p) == "OEBPS/" + Manifest(chapters)[k].href
    ensures k >= 3 ==> p == ChapterPath(chapters[k - 3].number)
    ensures k < 3 ==> !p.ChapterPath? && p != MimetypePath
  {
    if k < 3 then
      ManifestFixedHrefs(chapters);
      if k == 0 then
        assert "OEBPS/" + "toc.ncx" == "OEBPS/toc.ncx";
        NcxPath
      else if k == 1 then
        assert "OEBPS/" + "cover.xhtml" == "OEBPS/cover.xhtml";
        CoverPath
      else
        assert "OEBPS/" + "title.xhtml" == "OEBPS/title.xhtml";
        TitlePath
    else
      ManifestChapterItem(chapters, k - 3);
      ChapterArchiveName(chapters[k - 3].number);
      ChapterPath(chapters[k - 3].number)
  }

  /** The title page counts the chapters of the list, duplicates included. */
  lemma TitlePageCountsChapters(
    novelTitle: string, author: string, opfUuid: string, ncxUuid: string, timestamp: string,
    chapters: seq<Chapter>)
    ensures var files := ScratchFiles(novelTitle, author, opfUuid, ncxUuid, timestamp, chapters);
      && TitlePath in files && files[TitlePath].XhtmlFile? && files[TitlePath].page.TitlePage?
      && |files[TitlePath].page.info| == 2
      && files[TitlePath].page.info[1] == "总章节数: " + Decimal(|chapters|)
  {
    ChapterFilesKeys(chapters, TitlePath);
  }

  /** The container's rootfile is the package document the exporter writes,
      under its path in the archive and with the package media type. */
  lemma ContainerPointsAtPackage(
    novelTitle: string, author: string, opfUuid: string, ncxUuid: string, timestamp: string,
    chapters: seq<Chapter>)
    ensures ContainerDoc().rootFullPath == ArchiveName(PackagePath)
    ensures ContainerDoc().rootMediaType == PackageMediaType
    ensures var files := ScratchFiles(novelTitle, author, opfUuid, ncxUuid, timestamp, chapters);
      PackagePath in files && files[PackagePath] == PackageFile(PackageDoc(novelTitle, author, opfUuid, chapters))
  {
    FixedKeys(novelTitle, author, opfUuid, ncxUuid, timestamp, chapters, PackagePath);
    ChapterFilesKeys(chapters, PackagePath);
  }
}

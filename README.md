# EPUB export of a generated novel

This project models the EPUB exporter of an AI novel generator. The
exporter lives in `epub_exporter.py` and has two parts:

- **`EPubExporter`** collects chapters (number, title, text), one after
  another. On export it does three things:
  - It writes the EPUB documents into a scratch directory:
    - the container descriptor;
    - the `mimetype` file;
    - the OPF package document, with its metadata, manifest, spine and guide;
    - the NCX table of contents;
    - one XHTML page per chapter, a cover page and a title page.
  - It packs that directory into a zip. The `mimetype` file goes first and
    is stored; every other file follows compressed, in directory-walk order.
  - It reports success as `True` and any failure as `False`.
- **`export_novel_to_epub`** is the loader:
  - It takes the files `chapter_<int>.txt` of a novel's `chapters`
    directory and sorts them stably by chapter number.
  - From each file it takes a title from the first non-blank line. When
    that line starts with `第N章`, every occurrence of `第N章` in it is
    removed; when there is no title, the default is `章节N`. The lines after
    the title line become the chapter text.
  - It adds the chapters to an exporter and exports. It returns `False`
    when the directory is missing or no chapter could be read.

The model is organised as follows:

- The scratch directory is a `map` from `Epub.ScratchPath` to the document
  it holds. Every document is a datatype value (`Package`, `Ncx`, `Page`, …)
  rather than serialised XML.
- Each `_create_*` step is a method of the class `Exporter.EPubExporter`:
  - It takes the directory as it stands and returns the directory with its
    file written.
  - It is proved equal to a specification function in `Epub`, such as
    `PackageDoc`, `NcxDoc`, `ChapterFiles` or `ScratchFiles`.
  - The loops that build the manifest, spine, navMap and chapter pages keep
    the loop structure of the source.
- The archive is a sequence of `Ocf.Entry` (name, compression, document).
  `Ocf.CreateArchive` is the walk loop of `_create_epub_archive`.
- The loader is `Loader.ExportNovel`:
  - The name filter is `Listing.SelectChapterFiles`.
  - The stable sort is `Listing.SortByNumber`.
  - The title scan is `ChapterText.ExtractTitle`.
  - Its outcome is a `Result` whose errors name the ways the source
    returns `False`: no chapters directory, no chapter loaded, an output
    path without a directory part, or a scratch file missing when packing.
- An output path such as `novel.epub` has an empty `os.path.dirname`, and
  `os.makedirs('')` raises; both `export_to_epub` and the loader then return
  `False`. The model says so with `Exporter.HasDirectoryPart`: a POSIX path
  has a non-empty directory part exactly when it holds a `/`.
- The nondeterministic inputs are parameters:
  - the two UUIDs (the OPF identifier and the NCX `dtb:uid` are generated
    separately);
  - the clock reading printed on the title page;
  - the order in which the directory walk yields the scratch files (`walk`).
- The zip container follows section 3.3 of OCF 2.0.1: `mimetype` comes
  first and is not compressed.

Chapter order and duplicate numbers:

- The exporter keeps chapters in the order they were added and does not
  deduplicate numbers. Duplicate numbers give duplicate manifest ids, spine
  entries and nav points, and the later chapter's page overwrites the
  earlier one's file.
- Only the loader sorts, by chapter number and stably. So ascending order
  holds for what `export_novel_to_epub` exports (`Loader.ChaptersAscending`),
  not for the exporter in general. Even there the order is only
  non-decreasing: `chapter_1.txt` and `chapter_01.txt` both give chapter 1.
  `Epub.ManifestIdsDistinctIff` states
  exactly when the ids are distinct, and `Epub.ChapterFilesLastWins` states
  which page survives.

## Model

| member | source | states |
|---|---|---|
| Exporter.EPubExporter.constructor | epub_exporter.py:16-19 | a new exporter holds the given title and author and no chapters |
| Exporter.EPubExporter.WithDefaultAuthor | epub_exporter.py:16-19 | an exporter created without an author gets the default author `AI小说生成器` |
| Exporter.EPubExporter.AddChapter | epub_exporter.py:21-27 | the chapter list becomes the old list with the new chapter appended; nothing is checked, sorted or deduplicated |
| Exporter.EPubExporter.CreateContainerXml | epub_exporter.py:76-94 | the directory gains `META-INF/container.xml`, whose rootfile is `OEBPS/content.opf` with the OPF media type; every other file is unchanged |
| Exporter.EPubExporter.CreateMimetype | epub_exporter.py:96-100 | the directory gains the `mimetype` file holding `application/epub+zip`; every other file is unchanged |
| Exporter.EPubExporter.CreateContentOpf | epub_exporter.py:102-169 | the manifest and spine loops over the chapters give exactly `PackageDoc`: the metadata, the manifest, the spine, the guide, and the id `urn:uuid:` plus the given uuid |
| Exporter.EPubExporter.CreateTocNcx | epub_exporter.py:171-235 | the navMap loop gives exactly `NcxDoc`: nav points for the cover, the title page, then each chapter in list order, with play order `i + 3` |
| Exporter.EPubExporter.CreateChapterFiles | epub_exporter.py:237-271 | after the loop, the directory is the old one overlaid with `ChapterFiles(chapters)`: one page per chapter, where a repeated number keeps the later chapter's page |
| Exporter.ChapterParagraphs | epub_exporter.py:260-265 | the paragraph loop yields exactly `Paragraphs(content)`: the stripped non-blank lines, in order |
| Exporter.EPubExporter.CreateCoverPage | epub_exporter.py:273-324 | the directory gains the cover page with the novel title and author |
| Exporter.EPubExporter.CreateTitlePage | epub_exporter.py:326-379 | the directory gains the title page with the title, the author, the timestamp and the chapter count |
| Exporter.EPubExporter.ExportToEpub | epub_exporter.py:29-74 | the method yields `Export`: `Err(NoOutputDirectory)` (False) when the output path has no directory part; otherwise, writing the seven kinds of file in the source's order and packing them gives `ArchiveOf(ScratchFiles(..), walk)`, `Ok` (True) or `Err(MissingScratchFile)` (False) |
| Exporter.ExportOutcome | epub_exporter.py:39-74 | an output path without a directory part always gives `False` (line 41 raises, lines 72-74 catch it); with one, the export gives `True` exactly when packing the scratch directory succeeds |
| Exporter.WriteOrder | epub_exporter.py:54-60 | because chapter pages never share a key with the fixed files, the write order does not change the final directory |
| Exporter.ChapterFilesOnlyChapters | epub_exporter.py:237-271 | the chapter-page step writes only chapter paths |
| Exporter.ManifestSnoc | epub_exporter.py:139-146 | one more chapter adds exactly its item at the end of the manifest |
| Exporter.SpineSnoc | epub_exporter.py:153-155 | one more chapter adds exactly its idref at the end of the spine |
| Exporter.NavMapSnoc | epub_exporter.py:221-229 | one more chapter adds exactly its nav point, numbered by position, at the end of the navMap |
| Exporter.ExportSucceedsOnListing | epub_exporter.py:381-400 | when the walk yields each scratch file exactly once, packing succeeds, the first entry is the stored `mimetype` holding `application/epub+zip`, and entry names are distinct |
| Exporter.ChapterArchived | epub_exporter.py:268 | under such a walk, every added chapter has its `OEBPS/chapter_N.xhtml` entry in the archive |
| Ocf.CreateArchive | epub_exporter.py:381-400 | the archive method yields `ArchiveOf(files, walk)`: it fails when `mimetype` is missing, otherwise the marker comes first and the walk entries follow |
| Ocf.WriteWalk | epub_exporter.py:391-400 | the walk loop yields `WalkEntries`: it skips `mimetype`, adds each walked file compressed, and stops at the first missing file |
| Ocf.WalkStep | epub_exporter.py:396-400 | one walk step either skips the marker, fails on a missing file, or appends that file's compressed entry |
| Ocf.WalkErrorPersists | epub_exporter.py:400 | once writing a file has failed, the rest of the walk does not change the outcome |
| Ocf.ArchiveLayout | epub_exporter.py:386-400 | a successful archive starts with the stored `mimetype` entry, and every later entry is compressed and is not named `mimetype` |
| Ocf.ArchiveFailsIff | epub_exporter.py:387-400 | packing fails exactly when `mimetype` is missing or the walk names a file that is not in the directory |
| Ocf.WalkFailsIff | epub_exporter.py:391-400 | the walk fails exactly when it names a non-marker file that is not in the directory |
| Ocf.WalkEntriesCompressed | epub_exporter.py:400 | every walked entry is compressed and none is the marker |
| Ocf.NonMarkerMembers | epub_exporter.py:397-398 | the files after skipping are exactly the walked files other than `mimetype`, and they stay distinct |
| Ocf.WalkEntriesPresent | epub_exporter.py:391-400 | when every walked file exists, the walk yields one entry per non-marker file, in walk order |
| Ocf.WalkEntryNamesDistinct | epub_exporter.py:391-400 | a walk without repeats, over files that exist, gives entries with distinct names |
| Ocf.WalkEntriesCover | epub_exporter.py:391-400 | every walked non-marker file appears as an entry |
| Ocf.ArchiveOfListing | epub_exporter.py:381-400 | a walk that yields each file once gives a successful archive without duplicate names |
| Ocf.WalkedFileArchived | epub_exporter.py:391-400 | every walked non-marker file's entry is in the archive |
| Ocf.ListingArchiveNames | epub_exporter.py:381-400 | under such a walk, every file of the directory is in the archive under its relative path |
| Ocf.WalkEntriesFromFiles | epub_exporter.py:391-400 | every walked entry comes from a file of the directory that the walk named |
| Ocf.ArchiveEntriesFromFiles | epub_exporter.py:381-400 | every archive entry holds a file of the directory under that file's relative path |
| Ocf.EpubArchiveStartsWithMarker | epub_exporter.py:386-388 | an exported EPUB starts with the stored `mimetype` entry holding `application/epub+zip` |
| Epub.ChapterIdInjective | epub_exporter.py:140 | `chapter_N` ids are equal exactly when the numbers are equal |
| Epub.ChapterIdNotFixed | epub_exporter.py:124-146 | a chapter id never collides with `ncx`, `cover` or `title` |
| Epub.ArchiveNameInjective | epub_exporter.py:394 | different scratch files have different archive names |
| Epub.ChapterArchiveName | epub_exporter.py:268 | chapter N's page is archived as `OEBPS/` followed by its manifest href |
| Epub.FixedNamesDistinct | epub_exporter.py:54-60 | the six fixed files have distinct archive names |
| Epub.ContainerPointsAtPackage | epub_exporter.py:84-87 | the container's rootfile path is the archive name of the package document, with the package media type, and the scratch directory holds that package document |
| Epub.ManifestLayout | epub_exporter.py:124-146 | the manifest holds `ncx`, `cover` and `title`, then one XHTML item per chapter in list order (`chapter_N`, `chapter_N.xhtml`) |
| Epub.ManifestChapterItem | epub_exporter.py:139-146 | manifest item `3 + i` is chapter i's item |
| Epub.ManifestFixedHrefs | epub_exporter.py:124-136 | the first three hrefs are `toc.ncx`, `cover.xhtml` and `title.xhtml` |
| Epub.ManifestIdAt | epub_exporter.py:124-146 | the id of every manifest position |
| Epub.SpineFollowsManifest | epub_exporter.py:149-155 | the spine is the manifest ids without `ncx`, in manifest order |
| Epub.SpineResolves | epub_exporter.py:149-155 | every spine idref names a manifest item |
| Epub.ManifestIdsDistinctIff | epub_exporter.py:139-146 | manifest ids are distinct exactly when chapter numbers are distinct, so duplicate numbers give duplicate ids |
| Epub.DistinctNumbersGiveDistinctIds | epub_exporter.py:139-146 | distinct chapter numbers give distinct manifest ids |
| Epub.SharedNumberRepeatsId | epub_exporter.py:139-146 | a repeated chapter number repeats a manifest id |
| Epub.NavMapFollowsSpine | epub_exporter.py:202-229 | the navMap matches the spine position by position: play orders 1, 2, 3, … strictly increasing, ids equal to the spine idrefs, and sources equal to the manifest hrefs |
| Epub.NavLabelIsHeading | epub_exporter.py:226 | a chapter's nav label is `第N章 title`, the same text as its page's `<title>` and `<h1>` |
| Epub.ParagraphsAppend | epub_exporter.py:260-265 | the paragraphs of two newline-joined texts are the paragraphs of each, in order |
| Epub.ParagraphsOfLine | epub_exporter.py:261-265 | a single line gives no paragraph when blank, otherwise its stripped text |
| Epub.ParagraphsTrimmed | epub_exporter.py:262-265 | every paragraph is non-empty, has no surrounding whitespace and contains no newline |
| Epub.NoParagraphsIffBlank | epub_exporter.py:260-265 | a page has no paragraph exactly when the chapter text is all whitespace |
| Epub.NonBlankLinesAppend | epub_exporter.py:261-265 | the paragraph filter distributes over concatenation of line lists |
| Epub.NonBlankLinesEmpty | epub_exporter.py:261-265 | the filter yields nothing exactly when every line is blank |
| Epub.BlankIffLinesBlank | epub_exporter.py:260-263 | a text is blank exactly when every line of it is blank |
| Epub.ChapterFilesKeys | epub_exporter.py:237-271 | the chapter step writes exactly one file per distinct chapter number |
| Epub.ChapterFilesLastWins | epub_exporter.py:239-269 | for each number, the file holds the page of the last chapter with that number |
| Epub.ChapterPagePresent | epub_exporter.py:237-271 | with distinct numbers, every chapter's own page is written |
| Epub.LastIsOnlyWithNumber | epub_exporter.py:239 | with distinct numbers, the last chapter with a number is that chapter |
| Epub.LastWithNumber | epub_exporter.py:239-269 | the chapter picked for a number is in the list and has that number |
| Epub.ScratchKeys | epub_exporter.py:54-60 | the scratch directory holds the six fixed files and one page per chapter number, and nothing else |
| Epub.ManifestResolves | epub_exporter.py:124-146 | every manifest href names a file written under `OEBPS/` |
| Epub.ManifestItemPath | epub_exporter.py:124-146 | the scratch file each manifest item refers to (a chapter page for chapter items, never `mimetype`) |
| Epub.TitlePageCountsChapters | epub_exporter.py:371-373 | the title page's second info line is `总章节数: ` followed by the number of chapters added |
| Listing.ChapterFileNumber | epub_exporter.py:455-457 | a name is taken only when it starts with `chapter_` and ends with `.txt` |
| Listing.ChapterFileNameRoundTrip | epub_exporter.py:455-457 | the name `chapter_{n}.txt` is taken with number n |
| Listing.SelectChapterFiles | epub_exporter.py:453-460 | the filter loop yields `Candidates(listing)`, skipping names whose number does not parse |
| Listing.CandidatesIff | epub_exporter.py:453-460 | a (number, name) pair is selected exactly when the name is listed and parses to that number |
| Listing.CandidateOf | epub_exporter.py:455-458 | a single name gives its candidate exactly when it parses |
| Listing.SortByNumber | epub_exporter.py:463 | `list.sort(key=number)`, written as an insertion sort that puts each element after every element whose number is not larger; it sorts (`Listing.SortSorted`), permutes (`Listing.SortPermutes`) and is stable (`Listing.SortStable`) |
| Listing.InsertMultiset | epub_exporter.py:463 | insertion adds exactly the new element |
| Listing.InsertSorted | epub_exporter.py:463 | insertion into a sorted list keeps it sorted |
| Listing.SortSorted | epub_exporter.py:463 | the sorted list is in ascending number order |
| Listing.SortPermutes | epub_exporter.py:463 | the sorted list is a permutation of the selected files |
| Listing.SortStable | epub_exporter.py:463 | files with equal numbers keep their listing order |
| Listing.WithNumberMembers | epub_exporter.py:463 | the files with number n are exactly those members with that number |
| Listing.StableSortUnique | epub_exporter.py:463 | two sorted lists with the same files per number, in the same order, are equal; so any stable sort, Python's included, gives this result |
| ChapterText.FirstNonBlank | epub_exporter.py:478-480 | the line index found is within the file |
| ChapterText.FirstNonBlankNone | epub_exporter.py:478-490 | no title line is found exactly when every line strips to empty |
| ChapterText.FirstNonBlankIsNonBlank | epub_exporter.py:479-480 | the line found is non-blank |
| ChapterText.FirstNonBlankSkipsBlank | epub_exporter.py:478-480 | every line before the one found is blank |
| ChapterText.Title | epub_exporter.py:474-494 | the title is never empty |
| ChapterText.ContentStart | epub_exporter.py:484-489 | the text starts at a line index within the file |
| ChapterText.ExtractTitle | epub_exporter.py:474-497 | the title scan loop yields `Title` and `Body`: the first stripped non-blank line (when it starts with `第N章`, with every occurrence of `第N章` removed and the rest stripped), or `章节N` when that is empty, and the lines after it |
| ChapterText.BlankFileGetsDefaultTitle | epub_exporter.py:493-497 | a blank file gets the title `章节N` and keeps its whole text as body |
| ChapterText.BodyFollowsTitleLine | epub_exporter.py:484-497 | the file is the lines up to the title line, a newline, and then the body |
| ChapterText.MarkerRemoved | epub_exporter.py:483 | replacing `第N章` in `第N章 t` leaves ` t` when t does not itself contain `第N章` |
| ChapterText.MarkedLine | epub_exporter.py:481-483 | a title line `第N章 t` gives title t, for every t that is non-empty, has no surrounding whitespace or newline, and does not contain `第N章` (other titles starting with `第`, such as `第一次见面`, included) |
| ChapterText.ExtractRoundTrip | epub_exporter.py:474-497 | a file `第N章 t` + newline + rest gives title t and body rest, under the same conditions on t |
| Loader.ExportNovelWithDefaultAuthor | epub_exporter.py:429-430 | called without an author, the loader exports with the default author `AI小说生成器` |
| Loader.ExportNovel | epub_exporter.py:429-514 | the loader yields `NovelExport`: `ChaptersDirMissing`, `NoChapters`, the exporter's failure (no directory part in the output path, or a missing scratch file), or the archive of the loaded chapters |
| Loader.BareOutputNameFails | epub_exporter.py:505-510 | with an output path that has no directory part the loader returns `False` whatever the directory holds: `NoChapters` when nothing was loaded, else the exporter's `NoOutputDirectory` |
| Loader.LoadedIff | epub_exporter.py:466-503 | a chapter is added exactly when some readable file gives it |
| Loader.LoadedAscending | epub_exporter.py:466-503 | reading sorted files in order adds chapters in ascending number order |
| Loader.ChaptersAscending | epub_exporter.py:463-499 | the exporter receives the chapters in ascending (non-decreasing) number order |
| Loader.ChaptersFromFiles | epub_exporter.py:453-503 | a chapter is exported exactly when a listed, readable `chapter_<int>.txt` file gives its number, title and body |
| Loader.NothingLoaded | epub_exporter.py:469-503 | nothing is added exactly when no selected file can be read |
| Loader.NoChaptersIff | epub_exporter.py:505-507 | the export fails for want of chapters exactly when no listed chapter file can be read |
| Loader.GeneratedChapterExported | epub_exporter.py:453-499 | a listed, readable file `chapter_{n}.txt` holding `第n章 t` + newline + rest is exported as chapter n with title t and text rest, for every t that is non-empty, has no surrounding whitespace or newline, and does not contain `第n章` |
| Loader.ExportSucceeds | epub_exporter.py:505-510 | with some chapter loaded, an output path with a directory part, and a walk that yields every scratch file once, the result is `Ok` with the exporter's archive |
| Text.Strip | epub_exporter.py:262 | `str.strip()`: drops leading and trailing characters that `str.isspace` accepts (tab to carriage return, U+1C to U+1F, space, U+85, U+A0 and the Unicode spaces, U+3000 included); its properties are `Text.StripInfix`, `Text.StripEmptyIffBlank` and `Text.StripTrimmed` |
| Text.Split | epub_exporter.py:474 | `str.split('\n')`: always at least one piece (an empty text gives one empty piece); inverse of `Text.Join` by `Text.JoinSplit` and `Text.SplitJoin` |
| Text.Join | epub_exporter.py:497 | `'\n'.join(...)`: the pieces with the separator between them; inverse of `Text.Split` by `Text.JoinSplit` |
| Text.ReplaceAll | epub_exporter.py:483 | `str.replace`: every occurrence, found left to right without overlap and without rescanning the replacement; properties in `Text.ReplaceAllLeading`, `Text.ReplaceAllKeepsPrefix` and `Text.ReplaceAllAbsent` |
| Text.ReplaceAllAbsent | epub_exporter.py:483 | replacing a non-empty pattern that does not occur leaves the text unchanged |
| Text.ReplaceAllKeepsPrefix | epub_exporter.py:457 | a leading part without the pattern's first character is copied unchanged |
| Text.ParseInt | epub_exporter.py:457 | `int()` on a text with an optional sign and ASCII digits between whitespace: a parsed text holds at least one digit and none of the separators U+1C to U+1F, which `int()` does not skip although `str.isspace` accepts them; otherwise the result is `None` (the `ValueError` of line 459); `Text.ParseDecimal` is its inverse with `Text.Decimal` |
| Text.ParseIntSeparator | epub_exporter.py:457 | `int()` rejects `"\x1c7"` and `"7\x1f"` but reads `" 7\n"` as 7 |
| Text.Decimal | epub_exporter.py:140 | `str(n)` in the f-strings of lines 140, 226, 373 and 482: at least one character, all digits except a leading minus sign, which appears exactly when n is negative |
| Text.StripInfix | epub_exporter.py:479 | the stripped text is a contiguous part of the input, with whitespace only around it |
| Text.StripEmptyIffBlank | epub_exporter.py:480 | `strip()` is empty exactly when the text is all whitespace |
| Text.StripTrimmed | epub_exporter.py:483 | stripping a text without surrounding whitespace changes nothing |
| Text.JoinSplit | epub_exporter.py:474-497 | joining the split pieces gives back the text |
| Text.SplitJoin | epub_exporter.py:474-497 | splitting pieces that contain no separator gives back the pieces |
| Text.SplitAppend | epub_exporter.py:474 | splitting `a + "\n" + b` splits a and b separately |
| Text.SplitPiecesFree | epub_exporter.py:474 | no piece contains the separator |
| Text.ReplaceAllLeading | epub_exporter.py:457 | replacing in a text that starts with the pattern replaces that leading occurrence |
| Text.ParseDecimal | epub_exporter.py:457 | `int(str(n)) == n` |
| Text.DecimalInjective | epub_exporter.py:140 | different numbers print differently |

## Left out

- File I/O is not modelled: creating and removing directories, the location
  of the scratch directory, writing XML, and reading chapter files. The scratch
  directory is a map, and a chapter file that cannot be read is a listed
  name without text.
- The XML serialisation is not modelled: namespaces, the XML declaration,
  `_prettify_xml` and the inline CSS. The documents are datatype values.
  `_prettify_xml` is at epub_exporter.py:402-421.
- The zip byte format and DEFLATE are not modelled. An entry records only
  its name, its compression method and its document.
- The UUIDs and the clock are parameters. So are the order of `os.walk` and
  of `os.listdir`.
- Exceptions are modelled only where the model can raise them:
  - a missing `mimetype` file;
  - a walked file that is missing;
  - an unreadable chapter file.
  The missing chapters directory is not an exception in the source but an
  explicit check that returns `False`; it is modelled as
  `ChaptersDirMissing`. The `os.makedirs` call on an empty directory name
  is modelled as `NoOutputDirectory`; only `/` is taken as the path
  separator. Other failures (disk full, permissions) would come from I/O, which is not
  modelled.
- Logging is left out.
- `Text.ParseInt`: models Python's `int()` only for ASCII digits with an
  optional sign and surrounding whitespace. Underscores between digits and
  non-ASCII decimal digits, which `int()` also accepts, make the model
  reject the name. So `Listing.ChapterFileNumber` is `None` for such names.
- `Listing.SortByNumber`: is an insertion sort on values, not Python's
  Timsort. `Listing.StableSortUnique` shows that every stable sort by number
  gives the same list, so the result is the same.
- Everything outside the exporter is not part of this model: the
  configuration manager, the application entry points and the UI.

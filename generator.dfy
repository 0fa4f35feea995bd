/**
 * The generator object: a book's title, author, language and identifier, the
 * chapters read from the text and the images collected from the image folder,
 * and the methods that fill them in and list the package's contents.
 */
module Generator {
  import opened Wrappers
  import opened Text
  import opened Markers
  import opened Segmenter
  import opened Ordering
  import opened Assets
  import opened Package

  const DefaultAuthor: string := "未知作者"
  const DefaultLanguage: string := "zh"

  /** The paragraphs of one chapter page, built line by line. */
  method ContentParagraphs(content: string) returns (paragraphs: seq<string>)
    ensures paragraphs == Paragraphs(content)
  {
    var lines := Split(content, '\n');
    paragraphs := [];
    ghost var kept: seq<string> := [];
    for i := 0 to |lines|
      invariant kept == KeptLines(lines[..i])
      invariant paragraphs == ParagraphsOf(kept)
    {
      var line := Strip(lines[i]);
      assert lines[..i + 1][..i] == lines[..i];
      if line != [] && !IsImageLine(line) {
        paragraphs := paragraphs + [Paragraph(line)];
        kept := kept + [line];
      }
    }
    assert lines[..|lines|] == lines;
  }

  /** The first loop of `add_images`: the listed names with a supported extension, in listing order. */
  method SupportedFiles(files: seq<string>) returns (imageFiles: seq<string>)
    ensures imageFiles == FilterSupported(files)
  {
    imageFiles := [];
    for i := 0 to |files|
      invariant imageFiles == FilterSupported(files[..i])
    {
      assert files[..i + 1][..i] == files[..i];
      if IsSupported(files[i]) {
        imageFiles := imageFiles + [files[i]];
      }
    }
    assert files[..|files|] == files;
  }

  /**
   * One iteration of the line loop of `read_txt_file`, on the loop's locals:
   * the accumulated text, the pending title and the chapters found so far.
   */
  method ScanLine(currentChapter: string, chapterTitle: string, found: seq<Chapter>, raw: string)
    returns (acc: string, title: string, chapters: seq<Chapter>)
    ensures SegState(acc, title, chapters) == Step(SegState(currentChapter, chapterTitle, found), raw)
  {
    ghost var st := SegState(currentChapter, chapterTitle, found);
    acc, title, chapters := currentChapter, chapterTitle, found;
    var line := Strip(raw);
    if line == [] {
      acc := acc + "\n";
    } else {
      var isChapterTitle := IsChapterTitle(line);
      if isChapterTitle {
        StepMarker(st, raw);
        if Strip(acc) != [] {
          chapters := chapters + [Chapter(title, Strip(acc))];
        }
        title := line;
        acc := "";
      } else {
        StepNonMarker(st, raw);
        ConcatAssoc(acc, line, "\n");
        acc := acc + line + "\n";
      }
    }
  }

  /**
   * Ordinary images carry the ids `img_1..img_n` in order and none of them is
   * a cover; the cover slot holds only an image with id `cover` and a cover name.
   */
  predicate ImageSlots(images: seq<Image>, cover: Option<Image>)
  {
    IdsNumbered(images) &&
    (forall k :: 0 <= k < |images| ==> !IsCoverName(images[k].filename)) &&
    (cover.Some? ==> cover.value.id == "cover" && IsCoverName(cover.value.filename))
  }

  /** One name of the classification loop keeps the image slots well formed. */
  lemma ClassifyStep(images: seq<Image>, cover: Option<Image>, folder: string, x: string)
    requires ImageSlots(images, cover)
    ensures IsCoverName(x) ==> ImageSlots(images, Some(Image("cover", JoinPath(folder, x), x)))
    ensures !IsCoverName(x) ==> ImageSlots(images + [Image(ImgId(|images| + 1), JoinPath(folder, x), x)], cover)
  {
    if !IsCoverName(x) {
      var img := Image(ImgId(|images| + 1), JoinPath(folder, x), x);
      IdsNumberedSnoc(images, img);
      var r := images + [img];
      forall k | 0 <= k < |r| ensures !IsCoverName(r[k].filename) {
        if k < |images| {
          assert r[k] == images[k];
        }
      }
    }
  }

  class EpubGenerator {
    var bookId: string
    var chapters: seq<Chapter>
    var images: seq<Image>
    var coverImage: Option<Image>
    var bookTitle: string
    var author: string
    var language: string

    /** The image slots are well formed (see ImageSlots). */
    ghost predicate Valid()
      reads this
    {
      ImageSlots(images, coverImage)
    }

    /** A fresh generator; the random identifier is a parameter. */
    constructor(bookId: string)
      ensures this.bookId == bookId && chapters == [] && images == [] && coverImage == None
      ensures bookTitle == DefaultTitle && author == DefaultAuthor && language == DefaultLanguage
      ensures Valid()
    {
      this.bookId := bookId;
      chapters := [];
      images := [];
      coverImage := None;
      bookTitle := DefaultTitle;
      author := DefaultAuthor;
      language := DefaultLanguage;
    }

    /**
     * Reads the decoded text of the file `fileName`: the first line gives the
     * title, and the rest is cut into chapters at the marker lines, appended to
     * the chapters already present.
     */
    method ReadTxtFile(content: string, fileName: string)
      modifies this
      ensures bookTitle == BookTitle(Split(content, '\n')[0], Stem(fileName))
      ensures chapters == Segment(old(chapters), Join(Split(content, '\n')[1..], '\n'), bookTitle)
      ensures bookId == old(bookId) && images == old(images) && coverImage == old(coverImage)
      ensures author == old(author) && language == old(language)
    {
      // `split` never returns an empty list, so the first line always exists.
      var lines := Split(content, '\n');
      bookTitle := Strip(lines[0]);
      var body := Join(lines[1..], '\n');
      if bookTitle == [] || bookTitle == DefaultTitle {
        var bookName := Stem(fileName);
        if bookName != [] {
          bookTitle := bookName;
        }
      }
      SplitChapters(body);
    }

    /** The chapter loop of ReadTxtFile over the body after the title line, and the fallback chapter. */
    method SplitChapters(body: string)
      modifies this
      ensures chapters == Segment(old(chapters), body, bookTitle)
      ensures bookTitle == old(bookTitle) && bookId == old(bookId) && images == old(images)
      ensures coverImage == old(coverImage) && author == old(author) && language == old(language)
    {
      var bodyLines := Split(body, '\n');
      var currentChapter: string := "";
      var chapterTitle := Preface;
      var i := 0;
      while i < |bodyLines|
        invariant 0 <= i <= |bodyLines|
        invariant Segmenter.Run(InitialState(old(chapters)), bodyLines[..i]) == SegState(currentChapter, chapterTitle, chapters)
        invariant bookTitle == old(bookTitle) && bookId == old(bookId) && images == old(images)
        invariant coverImage == old(coverImage) && author == old(author) && language == old(language)
      {
        RunSnoc(InitialState(old(chapters)), bodyLines, i);
        currentChapter, chapterTitle, chapters := ScanLine(currentChapter, chapterTitle, chapters, bodyLines[i]);
        i := i + 1;
      }
      assert bodyLines[..i] == bodyLines;

      if Strip(currentChapter) != [] {
        chapters := chapters + [Chapter(chapterTitle, Strip(currentChapter))];
      }
      if chapters == [] {
        chapters := [Chapter(bookTitle, Strip(body))];
      }
    }

    /**
     * Adds the images of `folder`, whose listing is None when the folder does
     * not exist: the supported names in sorted order, each cover name taking
     * the cover slot and every other name becoming the next numbered image.
     */
    method AddImages(listing: Option<seq<string>>, folder: string)
      requires Valid()
      modifies this
      ensures Valid()
      ensures listing.None? ==> images == old(images) && coverImage == old(coverImage)
      ensures listing.Some? ==>
        images == old(images) + OrdinaryImages(folder, Collected(listing.value), |old(images)|) &&
        coverImage == CoverAfter(folder, Collected(listing.value), old(coverImage))
      ensures bookId == old(bookId) && chapters == old(chapters) && bookTitle == old(bookTitle)
      ensures author == old(author) && language == old(language)
    {
      if listing.None? {
        return;
      }
      var imageFiles := SupportedFiles(listing.value);
      imageFiles := SortNames(imageFiles);
      Classify(folder, imageFiles);
    }

    /** The classification loop of AddImages over the sorted names. */
    method Classify(folder: string, imageFiles: seq<string>)
      requires Valid()
      modifies this
      ensures Valid()
      ensures images == old(images) + OrdinaryImages(folder, imageFiles, |old(images)|)
      ensures coverImage == CoverAfter(folder, imageFiles, old(coverImage))
      ensures bookId == old(bookId) && chapters == old(chapters) && bookTitle == old(bookTitle)
      ensures author == old(author) && language == old(language)
    {
      ghost var start := |old(images)|;
      for j := 0 to |imageFiles|
        invariant images == old(images) + OrdinaryImages(folder, imageFiles[..j], start)
        invariant coverImage == CoverAfter(folder, imageFiles[..j], old(coverImage))
        invariant ImageSlots(images, coverImage)
        invariant bookId == old(bookId) && chapters == old(chapters) && bookTitle == old(bookTitle)
        invariant author == old(author) && language == old(language)
      {
        ghost var done := imageFiles[..j];
        assert imageFiles[..j + 1] == done + [imageFiles[j]];
        OrdinaryImagesSnoc(folder, done, imageFiles[j], start);
        CoverAfterSnoc(folder, done, imageFiles[j], old(coverImage));
        ClassifyOne(folder, imageFiles[j]);
      }
      assert imageFiles[..|imageFiles|] == imageFiles;
    }

    /** One name of the classification loop: the cover slot, or the next numbered image. */
    method ClassifyOne(folder: string, imgFile: string)
      requires Valid()
      modifies this
      ensures Valid()
      ensures IsCoverName(imgFile) ==>
        coverImage == Some(Image("cover", JoinPath(folder, imgFile), imgFile)) && images == old(images)
      ensures !IsCoverName(imgFile) ==>
        images == old(images) + [Image(ImgId(|old(images)| + 1), JoinPath(folder, imgFile), imgFile)] &&
        coverImage == old(coverImage)
      ensures bookId == old(bookId) && chapters == old(chapters) && bookTitle == old(bookTitle)
      ensures author == old(author) && language == old(language)
    {
      ClassifyStep(images, coverImage, folder, imgFile);
      var imgPath := JoinPath(folder, imgFile);
      var imgId := ImgId(|images| + 1);
      if IsCoverName(imgFile) {
        coverImage := Some(Image("cover", imgPath, imgFile));
      } else {
        images := images + [Image(imgId, imgPath, imgFile)];
      }
    }

    /** Overrides the title and the author when given (an empty string gives nothing), and sets the language. */
    method SetMetadata(title: string, author: string, language: string)
      modifies this
      ensures bookTitle == if title != [] then title else old(bookTitle)
      ensures this.author == if author != [] then author else old(this.author)
      ensures this.language == language
      ensures bookId == old(bookId) && chapters == old(chapters) && images == old(images)
      ensures coverImage == old(coverImage)
    {
      if title != [] {
        bookTitle := title;
      }
      if author != [] {
        this.author := author;
      }
      this.language := language;
    }

    /**
     * The package document: metadata, the manifest and the spine, built by
     * appending in the order they are written. The date and the media-type
     * guesser are parameters.
     */
    method CreateContentOpf(date: string, guess: string -> Option<string>) returns (opf: Opf)
      ensures opf.metadata == OpfMetadata(bookTitle, author, bookId, language, date, coverImage)
      ensures opf.manifest == Manifest(|chapters|, images, coverImage, guess)
      ensures opf.spine == Spine(|images|, |chapters|)
    {
      var pageItems, spineItems := PageEntries();
      var fileItems := FileEntries(guess);
      opf := Opf(OpfMetadata(bookTitle, author, bookId, language, date, coverImage), pageItems + fileItems, spineItems);
    }

    /** The cover page, the navigation document, the image pages and the chapters, with the spine beside them. */
    method PageEntries() returns (manifestItems: seq<Item>, spineItems: seq<string>)
      ensures manifestItems == PageItems(|images|, |chapters|)
      ensures spineItems == Spine(|images|, |chapters|)
    {
      manifestItems := [CoverPageItem(), NavItem()];
      spineItems := [IdText(CoverPage)];
      for i := 0 to |images|
        invariant manifestItems == [CoverPageItem(), NavItem()] + ImagePageItems(i)
        invariant spineItems == [IdText(CoverPage)] + ImagePageIds(i)
      {
        ImagePageItemsSnoc(i);
        ImagePageIdsSnoc(i);
        manifestItems := manifestItems + [ImagePageItem(i + 1)];
        spineItems := spineItems + [IdText(ImagePageId(i + 1))];
      }
      for i := 0 to |chapters|
        invariant manifestItems == [CoverPageItem(), NavItem()] + ImagePageItems(|images|) + ChapterItems(i)
        invariant spineItems == [IdText(CoverPage)] + ImagePageIds(|images|) + ChapterIds(i)
      {
        ChapterItemsSnoc(i);
        ChapterIdsSnoc(i);
        manifestItems := manifestItems + [ChapterItem(i + 1)];
        spineItems := spineItems + [IdText(ChapterId(i + 1))];
      }
    }

    /** The cover image when there is one, the ordinary images, and `toc.ncx`. */
    method FileEntries(guess: string -> Option<string>) returns (manifestItems: seq<Item>)
      ensures manifestItems == FileItems(images, coverImage, guess)
    {
      manifestItems := [];
      if coverImage.Some? {
        manifestItems := [CoverImageItem(coverImage.value, guess)];
      }
      for i := 0 to |images|
        invariant manifestItems == CoverImageItems(coverImage, guess) + ImageItems(images[..i], guess)
      {
        ImageItemsSnoc(images, i, guess);
        manifestItems := manifestItems + [ImageItem(images[i], guess)];
      }
      assert images[..|images|] == images;
      manifestItems := manifestItems + [NcxItem()];
    }

    /** The navigation map of `toc.ncx`, one point per chapter with a running play order. */
    method CreateTocNcx() returns (ncx: Ncx)
      ensures ncx == Ncx(bookId, bookTitle, NavPoints(chapters))
    {
      var navPoints: seq<NavPoint> := [];
      var playOrder := 1;
      for i := 0 to |chapters|
        invariant playOrder == i + 1
        invariant navPoints == NavPoints(chapters[..i])
      {
        assert NavPoints(chapters[..i + 1]) == NavPoints(chapters[..i]) + [NavPointAt(chapters, i)];
        navPoints := navPoints + [NavPoint("navpoint-" + NatStr(i + 1), playOrder, chapters[i].title, ChapterHref(i + 1))];
        playOrder := playOrder + 1;
      }
      assert chapters[..|chapters|] == chapters;
      ncx := Ncx(bookId, bookTitle, navPoints);
    }

    /** The list of the navigation document, one entry per chapter. */
    method CreateNavXhtml() returns (nav: NavDoc)
      ensures nav == NavDoc(bookTitle, NavEntries(chapters))
    {
      var navItems: seq<NavEntry> := [];
      for i := 0 to |chapters|
        invariant navItems == NavEntries(chapters[..i])
      {
        assert NavEntries(chapters[..i + 1]) == NavEntries(chapters[..i]) + [NavEntry(ChapterHref(i + 1), chapters[i].title)];
        navItems := navItems + [NavEntry(ChapterHref(i + 1), chapters[i].title)];
      }
      assert chapters[..|chapters|] == chapters;
      nav := NavDoc(bookTitle, navItems);
    }

    /** One page per image, in order. */
    method CreateImagePages() returns (pages: seq<ImagePage>)
      ensures pages == ImagePages(images)
    {
      pages := [];
      for i := 0 to |images|
        invariant pages == ImagePages(images[..i])
      {
        assert ImagePages(images[..i + 1]) == ImagePages(images[..i]) +
          [ImagePage(ImagePageHref(i + 1), "Image " + NatStr(i + 1), ImageHref(images[i]))];
        pages := pages + [ImagePage(ImagePageHref(i + 1), "Image " + NatStr(i + 1), ImageHref(images[i]))];
      }
      assert images[..|images|] == images;
    }

    /** One page per chapter; only the first carries the page break and the book title. */
    method CreateChaptersHtml() returns (pages: seq<ChapterPage>)
      ensures pages == ChapterPages(chapters, bookTitle)
    {
      pages := [];
      for i := 0 to |chapters|
        invariant |pages| == i
        invariant forall k :: 0 <= k < i ==> pages[k] == ChapterPageAt(chapters, bookTitle, k)
      {
        var contentParagraphs := ContentParagraphs(chapters[i].content);
        var pageBreakBefore := false;
        if i == 0 {
          pageBreakBefore := true;
        }
        var heading := if i == 0 then Some(bookTitle) else None;
        pages := pages + [ChapterPage(ChapterHref(i + 1), chapters[i].title, heading, pageBreakBefore, contentParagraphs)];
      }
    }
  }
}

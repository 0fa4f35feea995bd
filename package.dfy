/**
 * The structured content of the generated package: the manifest and spine of
 * `content.opf`, the navigation points of `toc.ncx`, the entries of
 * `nav.xhtml`, and the per-page facts of the chapter and image pages. Each is
 * a sequence of entries computed from the chapters, the images and the cover;
 * the markup around them is not modelled.
 */
module Package {
  import opened Wrappers
  import opened Text
  import opened Segmenter
  import opened Assets
  import opened Sanitize

  const XhtmlType: string := "application/xhtml+xml"
  const NcxType: string := "application/x-dtbncx+xml"
  const DefaultImageType: string := "image/jpeg"

  /** The kinds of manifest id the generator writes, with their numbers. */
  datatype ItemId =
    | CoverPage
    | NavPage
    | ImagePageId(n: nat)
    | ChapterId(n: nat)
    | CoverImg
    | ImageId(n: nat)
    | NcxFile

  /** The id as written in the package. */
  function IdText(i: ItemId): string
  {
    match i
    case CoverPage => "cover"
    case NavPage => "nav"
    case ImagePageId(n) => "image_page_" + NatStr(n)
    case ChapterId(n) => "chapter_" + NatStr(n)
    case CoverImg => "cover_img"
    case ImageId(n) => ImgId(n)
    case NcxFile => "ncx"
  }

  /** The first three characters of each kind of id. */
  function IdHead(i: ItemId): string
  {
    match i
    case CoverPage => "cov"
    case NavPage => "nav"
    case ImagePageId(_) => "ima"
    case ChapterId(_) => "cha"
    case CoverImg => "cov"
    case ImageId(_) => "img"
    case NcxFile => "ncx"
  }

  lemma IdTextHead(i: ItemId)
    ensures |IdText(i)| >= 3 && IdText(i)[..3] == IdHead(i)
    ensures i == CoverPage ==> |IdText(i)| == 5
    ensures i == CoverImg ==> |IdText(i)| == 9
  {
  }

  /** Different ids are written differently. */
  lemma IdTextInjective(a: ItemId, b: ItemId)
    requires IdText(a) == IdText(b)
    ensures a == b
  {
    IdTextHead(a);
    IdTextHead(b);
    if a.ImagePageId? && b.ImagePageId? {
      assert IdText(a)[11..] == NatStr(a.n);
      assert IdText(b)[11..] == NatStr(b.n);
      NatStrInjective(a.n, b.n);
    } else if a.ChapterId? && b.ChapterId? {
      assert IdText(a)[8..] == NatStr(a.n);
      assert IdText(b)[8..] == NatStr(b.n);
      NatStrInjective(a.n, b.n);
    } else if a.ImageId? && b.ImageId? {
      assert IdText(a)[4..] == NatStr(a.n);
      assert IdText(b)[4..] == NatStr(b.n);
      NatStrInjective(a.n, b.n);
    }
  }

  /** Ordinary images carry the dense ids `img_1`, `img_2`, … in order. */
  predicate IdsNumbered(images: seq<Image>)
  {
    forall k :: 0 <= k < |images| ==> images[k].id == ImgId(k + 1)
  }

  /** Appending the image with the next number keeps the numbering. */
  lemma IdsNumberedSnoc(images: seq<Image>, x: Image)
    requires IdsNumbered(images) && x.id == ImgId(|images| + 1)
    ensures IdsNumbered(images + [x])
  {
    var r := images + [x];
    forall k | 0 <= k < |r| ensures r[k].id == ImgId(k + 1) {
      if k < |images| {
        assert r[k] == images[k];
      }
    }
  }

  function ChapterHref(n: nat): string
  {
    "chapter_" + NatStr(n) + ".xhtml"
  }

  function ImagePageHref(n: nat): string
  {
    "image_page_" + NatStr(n) + ".xhtml"
  }

  /** Where an image file is stored inside the package. */
  function ImageHref(img: Image): string
  {
    "images/" + img.filename
  }

  /**
   * The media type of an image: what `guess` says for its path, or
   * `image/jpeg` when it says nothing (or the empty string).
   */
  function MediaType(guess: string -> Option<string>, path: string): string
  {
    match guess(path)
    case Some(t) => if t != [] then t else DefaultImageType
    case None => DefaultImageType
  }

  // ---------------------------------------------------------------- content.opf

  /** One manifest entry; `properties` is Some("nav") on the navigation document only. */
  datatype Item = Item(id: string, href: string, mediaType: string, properties: Option<string>)

  function CoverPageItem(): Item
  {
    Item(IdText(CoverPage), "cover.xhtml", XhtmlType, None)
  }

  function NavItem(): Item
  {
    Item(IdText(NavPage), "nav.xhtml", XhtmlType, Some("nav"))
  }

  function ImagePageItem(n: nat): Item
  {
    Item(IdText(ImagePageId(n)), ImagePageHref(n), XhtmlType, None)
  }

  function ChapterItem(n: nat): Item
  {
    Item(IdText(ChapterId(n)), ChapterHref(n), XhtmlType, None)
  }

  function CoverImageItem(cover: Image, guess: string -> Option<string>): Item
  {
    Item(IdText(CoverImg), ImageHref(cover), MediaType(guess, cover.path), None)
  }

  function ImageItem(img: Image, guess: string -> Option<string>): Item
  {
    Item(img.id, ImageHref(img), MediaType(guess, img.path), None)
  }

  function NcxItem(): Item
  {
    Item(IdText(NcxFile), "toc.ncx", NcxType, None)
  }

  function ImagePageItems(n: nat): seq<Item>
  {
    seq(n, k requires 0 <= k < n => ImagePageItem(k + 1))
  }

  function ChapterItems(m: nat): seq<Item>
  {
    seq(m, k requires 0 <= k < m => ChapterItem(k + 1))
  }

  function CoverImageItems(cover: Option<Image>, guess: string -> Option<string>): seq<Item>
  {
    match cover
    case Some(c) => [CoverImageItem(c, guess)]
    case None => []
  }

  function ImageItems(images: seq<Image>, guess: string -> Option<string>): seq<Item>
  {
    seq(|images|, k requires 0 <= k < |images| => ImageItem(images[k], guess))
  }

  /**
   * The manifest, in the order it is written: the cover page and the
   * navigation document, one page per ordinary image, one page per chapter,
   * the cover image when there is one, the ordinary images, and `toc.ncx`.
   */
  function Manifest(m: nat, images: seq<Image>, cover: Option<Image>, guess: string -> Option<string>): seq<Item>
  {
    PageItems(|images|, m) + FileItems(images, cover, guess)
  }

  /** The XHTML documents: cover page, navigation document, image pages, chapters. */
  function PageItems(n: nat, m: nat): seq<Item>
  {
    [CoverPageItem(), NavItem()] + ImagePageItems(n) + ChapterItems(m)
  }

  /** The other files: the cover image when there is one, the ordinary images, `toc.ncx`. */
  function FileItems(images: seq<Image>, cover: Option<Image>, guess: string -> Option<string>): seq<Item>
  {
    CoverImageItems(cover, guess) + ImageItems(images, guess) + [NcxItem()]
  }

  /** The reading order: the cover page, the image pages, the chapters. */
  function Spine(n: nat, m: nat): seq<string>
  {
    [IdText(CoverPage)] + ImagePageIds(n) + ChapterIds(m)
  }

  function ImagePageIds(n: nat): seq<string>
  {
    seq(n, k requires 0 <= k < n => IdText(ImagePageId(k + 1)))
  }

  function ChapterIds(m: nat): seq<string>
  {
    seq(m, k requires 0 <= k < m => IdText(ChapterId(k + 1)))
  }

  // Each list grows by one entry per loop iteration.

  lemma ImagePageItemsSnoc(i: nat)
    ensures ImagePageItems(i + 1) == ImagePageItems(i) + [ImagePageItem(i + 1)]
  {
  }

  lemma ImagePageIdsSnoc(i: nat)
    ensures ImagePageIds(i + 1) == ImagePageIds(i) + [IdText(ImagePageId(i + 1))]
  {
  }

  lemma ChapterItemsSnoc(i: nat)
    ensures ChapterItems(i + 1) == ChapterItems(i) + [ChapterItem(i + 1)]
  {
  }

  lemma ChapterIdsSnoc(i: nat)
    ensures ChapterIds(i + 1) == ChapterIds(i) + [IdText(ChapterId(i + 1))]
  {
  }

  lemma ImageItemsSnoc(images: seq<Image>, i: nat, guess: string -> Option<string>)
    requires i < |images|
    ensures ImageItems(images[..i + 1], guess) == ImageItems(images[..i], guess) + [ImageItem(images[i], guess)]
  {
  }

  datatype Metadata = Metadata(
    title: string, creator: string, identifier: string, language: string, date: string, coverMeta: bool)

  datatype Opf = Opf(metadata: Metadata, manifest: seq<Item>, spine: seq<string>)

  /**
   * The metadata block: the title with its tags removed and trimmed, and the
   * `cover` meta element exactly when there is a cover image.
   */
  function OpfMetadata(bookTitle: string, author: string, bookId: string, language: string, date: string,
                       cover: Option<Image>): (md: Metadata)
    ensures md.title == SanitizeTitle(bookTitle)
    ensures Tagless(md.title) && Strip(md.title) == md.title
    ensures md.coverMeta <==> cover.Some?
  {
    SanitizeTitleClean(bookTitle);
    Metadata(SanitizeTitle(bookTitle), author, bookId, language, date, cover.Some?)
  }

  /** 1 with a cover image, 0 without. */
  function CoverCount(cover: Option<Image>): nat
  {
    if cover.Some? then 1 else 0
  }

  /** The manifest's `k`-th item, for `n` images, `m` chapters and `c` cover images. */
  function ItemAt(k: nat, m: nat, images: seq<Image>, cover: Option<Image>, guess: string -> Option<string>): Item
    requires k < 3 + 2 * |images| + m + CoverCount(cover)
  {
    var n := |images|;
    var c := CoverCount(cover);
    if k == 0 then CoverPageItem()
    else if k == 1 then NavItem()
    else if k < 2 + n then ImagePageItem(k - 1)
    else if k < 2 + n + m then ChapterItem(k - 1 - n)
    else if k < 2 + n + m + c then CoverImageItem(cover.value, guess)
    else if k < 2 + n + m + c + n then ImageItem(images[k - 2 - n - m - c], guess)
    else NcxItem()
  }

  /** The id of the manifest's `k`-th item. */
  function IdAt(k: nat, n: nat, m: nat, c: nat): ItemId
  {
    if k == 0 then CoverPage
    else if k == 1 then NavPage
    else if k < 2 + n then ImagePageId(k - 1)
    else if k < 2 + n + m then ChapterId(k - 1 - n)
    else if k < 2 + n + m + c then CoverImg
    else if k < 2 + n + m + c + n then ImageId(k - 1 - n - m - c)
    else NcxFile
  }

  /** Where each id sits in a manifest with `n` images, `m` chapters and `c` cover images. */
  function Position(i: ItemId, n: nat, m: nat, c: nat): int
  {
    match i
    case CoverPage => 0
    case NavPage => 1
    case ImagePageId(k) => 1 + k
    case ChapterId(k) => 1 + n + k
    case CoverImg => 2 + n + m
    case ImageId(k) => 1 + n + m + c + k
    case NcxFile => 2 + n + m + c + n
  }

  lemma PositionOfIdAt(k: nat, n: nat, m: nat, c: nat)
    requires c <= 1 && k < 3 + 2 * n + m + c
    ensures Position(IdAt(k, n, m, c), n, m, c) == k
  {
  }

  lemma PageItemsAt(n: nat, m: nat, k: nat)
    requires k < 2 + n + m
    ensures |PageItems(n, m)| == 2 + n + m
    ensures PageItems(n, m)[k] ==
      if k == 0 then CoverPageItem() else if k == 1 then NavItem()
      else if k < 2 + n then ImagePageItem(k - 1) else ChapterItem(k - 1 - n)
  {
    var p := [CoverPageItem(), NavItem()] + ImagePageItems(n);
    assert PageItems(n, m) == p + ChapterItems(m);
    if k >= 2 + n {
      assert PageItems(n, m)[k] == ChapterItems(m)[k - 2 - n];
    } else if k >= 2 {
      assert PageItems(n, m)[k] == p[k] == ImagePageItems(n)[k - 2];
    }
  }

  lemma FileItemsAt(images: seq<Image>, cover: Option<Image>, guess: string -> Option<string>, k: nat)
    requires k < CoverCount(cover) + |images| + 1
    ensures |FileItems(images, cover, guess)| == CoverCount(cover) + |images| + 1
    ensures FileItems(images, cover, guess)[k] ==
      if k < CoverCount(cover) then CoverImageItem(cover.value, guess)
      else if k < CoverCount(cover) + |images| then ImageItem(images[k - CoverCount(cover)], guess)
      else NcxItem()
  {
    var c := CoverCount(cover);
    var p := CoverImageItems(cover, guess) + ImageItems(images, guess);
    assert FileItems(images, cover, guess) == p + [NcxItem()];
    if c <= k < c + |images| {
      assert p[k] == ImageItems(images, guess)[k - c];
    }
  }

  /** The manifest, item by item. */
  lemma ManifestAt(m: nat, images: seq<Image>, cover: Option<Image>, guess: string -> Option<string>, k: nat)
    requires k < 3 + 2 * |images| + m + CoverCount(cover)
    ensures |Manifest(m, images, cover, guess)| == 3 + 2 * |images| + m + CoverCount(cover)
    ensures Manifest(m, images, cover, guess)[k] == ItemAt(k, m, images, cover, guess)
  {
    var n := |images|;
    PageItemsAt(n, m, 0);
    FileItemsAt(images, cover, guess, 0);
    if k < 2 + n + m {
      PageItemsAt(n, m, k);
    } else {
      FileItemsAt(images, cover, guess, k - 2 - n - m);
    }
  }

  /** The item ids are the written ids of IdAt; for the image items this needs numbered images. */
  lemma ItemIdAt(k: nat, m: nat, images: seq<Image>, cover: Option<Image>, guess: string -> Option<string>)
    requires k < 3 + 2 * |images| + m + CoverCount(cover)
    requires k < 2 + |images| + m || IdsNumbered(images)
    ensures ItemAt(k, m, images, cover, guess).id == IdText(IdAt(k, |images|, m, CoverCount(cover)))
  {
  }

  /** With numbered images, no two manifest items share an id. */
  lemma ManifestIdsDistinct(m: nat, images: seq<Image>, cover: Option<Image>, guess: string -> Option<string>)
    requires IdsNumbered(images)
    ensures var man := Manifest(m, images, cover, guess);
      forall i, j :: 0 <= i < j < |man| ==> man[i].id != man[j].id
  {
    var n := |images|;
    var c := CoverCount(cover);
    var man := Manifest(m, images, cover, guess);
    ManifestAt(m, images, cover, guess, 0);
    forall i, j | 0 <= i < j < |man| ensures man[i].id != man[j].id {
      ManifestAt(m, images, cover, guess, i);
      ManifestAt(m, images, cover, guess, j);
      ItemIdAt(i, m, images, cover, guess);
      ItemIdAt(j, m, images, cover, guess);
      PositionOfIdAt(i, n, m, c);
      PositionOfIdAt(j, n, m, c);
      if man[i].id == man[j].id {
        IdTextInjective(IdAt(i, n, m, c), IdAt(j, n, m, c));
      }
    }
  }

  /**
   * The manifest's layout: cover page and navigation document first, `toc.ncx`
   * last, the navigation document the only item with properties, and a
   * `cover_img` item exactly when there is a cover.
   */
  lemma ManifestLayout(m: nat, images: seq<Image>, cover: Option<Image>, guess: string -> Option<string>)
    requires IdsNumbered(images)
    ensures var man := Manifest(m, images, cover, guess);
      |man| == 3 + 2 * |images| + m + CoverCount(cover) &&
      man[0].id == "cover" && man[1] == Item("nav", "nav.xhtml", XhtmlType, Some("nav")) &&
      man[|man| - 1] == Item("ncx", "toc.ncx", NcxType, None) &&
      (forall k :: 0 <= k < |man| && man[k].properties.Some? ==> k == 1) &&
      ((exists k :: 0 <= k < |man| && man[k].id == "cover_img") <==> cover.Some?)
  {
    var n := |images|;
    var c := CoverCount(cover);
    var man := Manifest(m, images, cover, guess);
    ManifestAt(m, images, cover, guess, 0);
    ManifestAt(m, images, cover, guess, 1);
    ManifestAt(m, images, cover, guess, |man| - 1);
    forall k | 0 <= k < |man| && man[k].properties.Some? ensures k == 1 {
      ManifestAt(m, images, cover, guess, k);
    }
    if cover.Some? {
      ManifestAt(m, images, cover, guess, 2 + n + m);
      assert man[2 + n + m].id == "cover_img";
    } else {
      forall k | 0 <= k < |man| ensures man[k].id != "cover_img" {
        ManifestAt(m, images, cover, guess, k);
        ItemIdAt(k, m, images, cover, guess);
        if man[k].id == "cover_img" {
          IdTextInjective(IdAt(k, n, m, c), CoverImg);
        }
      }
    }
  }

  /** The spine, entry by entry: the cover page, then the manifest's pages after the navigation document. */
  lemma SpineAt(n: nat, m: nat, k: nat)
    requires k < 1 + n + m
    ensures |Spine(n, m)| == 1 + n + m
    ensures Spine(n, m)[k] == IdText(IdAt(if k == 0 then 0 else k + 1, n, m, 0))
  {
    var p := [IdText(CoverPage)] + ImagePageIds(n);
    var q := ChapterIds(m);
    assert Spine(n, m) == p + q;
    if k >= 1 + n {
      assert Spine(n, m)[k] == q[k - 1 - n];
    } else if k >= 1 {
      assert Spine(n, m)[k] == p[k];
    }
  }

  /** Spine entry `k`, past the cover page, is the id of manifest item `k + 1`, an XHTML page. */
  lemma SpineEntryAt(m: nat, images: seq<Image>, cover: Option<Image>, guess: string -> Option<string>, k: nat)
    requires 1 <= k < 1 + |images| + m
    ensures var man := Manifest(m, images, cover, guess);
      k + 1 < |man| && Spine(|images|, m)[k] == man[k + 1].id && man[k + 1].mediaType == XhtmlType
  {
    SpineAt(|images|, m, k);
    ManifestAt(m, images, cover, guess, k + 1);
    ItemIdAt(k + 1, m, images, cover, guess);
  }

  /** The navigation document's id is not a spine entry. */
  lemma SpineEntryNotNav(n: nat, m: nat, k: nat)
    requires k < 1 + n + m
    ensures Spine(n, m)[k] != "nav"
  {
    SpineAt(n, m, k);
    var i := IdAt(if k == 0 then 0 else k + 1, n, m, 0);
    if Spine(n, m)[k] == "nav" {
      IdTextInjective(i, NavPage);
    }
  }

  /**
   * The spine lists the cover page and then the manifest's image pages and
   * chapters, in the manifest's order; every spine entry names an XHTML item
   * of the manifest, and the navigation document is not in the spine.
   */
  lemma SpineMatchesManifest(m: nat, images: seq<Image>, cover: Option<Image>, guess: string -> Option<string>)
    ensures var man := Manifest(m, images, cover, guess);
      var sp := Spine(|images|, m);
      |sp| == 1 + |images| + m && sp[0] == man[0].id &&
      (forall k :: 1 <= k < |sp| ==> sp[k] == man[k + 1].id) &&
      (forall k :: 0 <= k < |sp| ==> exists j :: 0 <= j < |man| && man[j].id == sp[k] && man[j].mediaType == XhtmlType) &&
      "nav" !in sp
  {
    var n := |images|;
    var man := Manifest(m, images, cover, guess);
    var sp := Spine(n, m);
    SpineAt(n, m, 0);
    ManifestAt(m, images, cover, guess, 0);
    forall k | 1 <= k < |sp| ensures sp[k] == man[k + 1].id && man[k + 1].mediaType == XhtmlType {
      SpineEntryAt(m, images, cover, guess, k);
    }
    forall k | 0 <= k < |sp|
      ensures exists j :: 0 <= j < |man| && man[j].id == sp[k] && man[j].mediaType == XhtmlType {
      if k == 0 {
        assert man[0].id == sp[0];
      } else {
        assert man[k + 1].id == sp[k];
      }
    }
    forall k | 0 <= k < |sp| ensures sp[k] != "nav" {
      SpineEntryNotNav(n, m, k);
    }
  }

  /** Two images and three chapters: the reading order written out. */
  lemma SpineExample()
    ensures Spine(2, 3) == ["cover", "image_page_1", "image_page_2", "chapter_1", "chapter_2", "chapter_3"]
  {
    var sp := Spine(2, 3);
    assert NatStr(1) == "1" && NatStr(2) == "2" && NatStr(3) == "3";
    SpineAt(2, 3, 0);
    SpineAt(2, 3, 1);
    assert sp[1] == "image_page_" + "1" == "image_page_1";
    SpineAt(2, 3, 2);
    assert sp[2] == "image_page_" + "2" == "image_page_2";
    SpineAt(2, 3, 3);
    assert sp[3] == "chapter_" + "1" == "chapter_1";
    SpineAt(2, 3, 4);
    assert sp[4] == "chapter_" + "2" == "chapter_2";
    SpineAt(2, 3, 5);
    assert sp[5] == "chapter_" + "3" == "chapter_3";
  }

  /** The cover meta element refers to an item the manifest holds. */
  lemma CoverMetaResolves(bookTitle: string, author: string, bookId: string, language: string, date: string,
                          m: nat, images: seq<Image>, cover: Option<Image>, guess: string -> Option<string>)
    requires IdsNumbered(images)
    ensures OpfMetadata(bookTitle, author, bookId, language, date, cover).coverMeta ==>
      exists k :: 0 <= k < |Manifest(m, images, cover, guess)| && Manifest(m, images, cover, guess)[k].id == "cover_img"
  {
    ManifestLayout(m, images, cover, guess);
  }

  // ------------------------------------------------------------------ toc.ncx

  datatype NavPoint = NavPoint(id: string, playOrder: nat, text: string, src: string)

  datatype Ncx = Ncx(uid: string, docTitle: string, navPoints: seq<NavPoint>)

  function NavPointAt(chapters: seq<Chapter>, i: nat): NavPoint
    requires i < |chapters|
  {
    NavPoint("navpoint-" + NatStr(i + 1), i + 1, chapters[i].title, ChapterHref(i + 1))
  }

  /** One navigation point per chapter, in order; image pages get none. */
  function NavPoints(chapters: seq<Chapter>): seq<NavPoint>
  {
    seq(|chapters|, i requires 0 <= i < |chapters| => NavPointAt(chapters, i))
  }

  /**
   * The navigation points follow the chapters: each one's label is its
   * chapter's title and its target is that chapter's manifest item, the one
   * the spine lists at the same place among the chapters.
   */
  lemma NavPointsFollowChapters(chapters: seq<Chapter>, images: seq<Image>, cover: Option<Image>,
                                guess: string -> Option<string>)
    ensures var pts := NavPoints(chapters);
      var man := Manifest(|chapters|, images, cover, guess);
      |pts| == |chapters| &&
      forall i :: 0 <= i < |pts| ==>
         pts[i].text == chapters[i].title && pts[i].src == man[2 + |images| + i].href &&
         man[2 + |images| + i].id == Spine(|images|, |chapters|)[1 + |images| + i]
  {
    var n := |images|;
    var m := |chapters|;
    var pts := NavPoints(chapters);
    var man := Manifest(m, images, cover, guess);
    SpineMatchesManifest(m, images, cover, guess);
    forall i | 0 <= i < |pts| ensures pts[i].src == man[2 + n + i].href {
      ManifestAt(m, images, cover, guess, 2 + n + i);
    }
  }

  function PlayOrders(pts: seq<NavPoint>): set<nat>
  {
    set p | p in pts :: p.playOrder
  }

  /** The play orders rise with the position and are exactly 1..m. */
  lemma PlayOrdersContiguous(chapters: seq<Chapter>)
    ensures var pts := NavPoints(chapters);
      (forall i, j :: 0 <= i < j < |pts| ==> pts[i].playOrder < pts[j].playOrder) &&
      (forall q: nat :: q in PlayOrders(pts) <==> 1 <= q <= |chapters|)
  {
    var pts := NavPoints(chapters);
    forall q: nat | 1 <= q <= |chapters| ensures q in PlayOrders(pts) {
      assert pts[q - 1].playOrder == q;
    }
  }

  /** No navigation point targets an image page. */
  lemma NavPointsSkipImagePages(chapters: seq<Chapter>)
    ensures forall p, k :: p in NavPoints(chapters) ==> p.src != ImagePageHref(k)
  {
    forall p, k | p in NavPoints(chapters) ensures p.src != ImagePageHref(k) {
      assert p.src[..3] == "cha";
      assert ImagePageHref(k)[..3] == "ima";
    }
  }

  // ---------------------------------------------------------------- nav.xhtml

  datatype NavEntry = NavEntry(href: string, text: string)

  datatype NavDoc = NavDoc(title: string, entries: seq<NavEntry>)

  /** One `<li>` per chapter, in order. */
  function NavEntries(chapters: seq<Chapter>): seq<NavEntry>
  {
    seq(|chapters|, i requires 0 <= i < |chapters| => NavEntry(ChapterHref(i + 1), chapters[i].title))
  }

  /** The navigation document and `toc.ncx` list the same targets with the same labels, in the same order. */
  lemma NavAgreesWithNcx(chapters: seq<Chapter>)
    ensures |NavEntries(chapters)| == |NavPoints(chapters)|
    ensures forall i :: 0 <= i < |NavEntries(chapters)| ==>
      NavEntries(chapters)[i].href == NavPoints(chapters)[i].src &&
      NavEntries(chapters)[i].text == NavPoints(chapters)[i].text
  {
  }

  // ------------------------------------------------------------- chapter pages

  /** A content line that stood for an image in the text and is dropped. */
  predicate IsImageLine(line: string)
  {
    StartsWith(line, "[图片") || StartsWith(line, "![")
  }

  /** The content lines that become paragraphs: stripped, non-blank, not image lines. */
  function KeptLines(lines: seq<string>): seq<string>
    decreases |lines|
  {
    if lines == [] then []
    else
      var line := Strip(lines[|lines| - 1]);
      KeptLines(lines[..|lines| - 1]) + (if line != [] && !IsImageLine(line) then [line] else [])
  }

  function Paragraph(line: string): string
  {
    "<p>" + line + "</p>"
  }

  function ParagraphsOf(kept: seq<string>): seq<string>
  {
    seq(|kept|, k requires 0 <= k < |kept| => Paragraph(kept[k]))
  }

  /** The paragraphs of a chapter page. */
  function Paragraphs(content: string): seq<string>
  {
    ParagraphsOf(KeptLines(Split(content, '\n')))
  }

  /**
   * A line is kept exactly when it is the stripped form of a content line that
   * is neither blank nor an image line; kept lines are never more than the lines.
   */
  lemma {:induction false} KeptLinesSpec(lines: seq<string>)
    ensures |KeptLines(lines)| <= |lines|
    ensures forall l :: l in KeptLines(lines) <==>
      exists j :: 0 <= j < |lines| && l == Strip(lines[j]) && l != [] && !IsImageLine(l)
    decreases |lines|
  {
    if lines != [] {
      var init := lines[..|lines| - 1];
      KeptLinesSpec(init);
      forall l ensures l in KeptLines(lines) <==>
        exists j :: 0 <= j < |lines| && l == Strip(lines[j]) && l != [] && !IsImageLine(l) {
        if exists j :: 0 <= j < |lines| && l == Strip(lines[j]) && l != [] && !IsImageLine(l) {
          var j :| 0 <= j < |lines| && l == Strip(lines[j]) && l != [] && !IsImageLine(l);
          if j < |lines| - 1 {
            assert init[j] == lines[j];
          }
        }
        if l in KeptLines(init) {
          var j :| 0 <= j < |init| && l == Strip(init[j]) && l != [] && !IsImageLine(l);
          assert lines[j] == init[j];
        }
      }
    }
  }

  /** One line is kept, stripped, exactly when it is neither blank nor an image line. */
  lemma KeptLinesSingle(l: string)
    ensures KeptLines([l]) == if Strip(l) != [] && !IsImageLine(Strip(l)) then [Strip(l)] else []
  {
    assert [l][..0] == [];
  }

  /**
   * The filter works line by line: the kept lines of two runs of lines are
   * the kept lines of the first followed by those of the second, so order and
   * repetitions survive whatever blank or image lines lie between.
   */
  lemma {:induction false} KeptLinesAppend(a: seq<string>, b: seq<string>)
    ensures KeptLines(a + b) == KeptLines(a) + KeptLines(b)
    decreases |b|
  {
    if b == [] {
      assert a + b == a;
    } else {
      var init := b[..|b| - 1];
      assert (a + b)[..|a + b| - 1] == a + init;
      assert (a + b)[|a + b| - 1] == b[|b| - 1];
      KeptLinesAppend(a, init);
    }
  }

  /** The kept lines are the stripped lines, in order, with the blank and image lines dropped. */
  lemma {:induction false} KeptLinesCons(l: string, rest: seq<string>)
    ensures KeptLines([l] + rest) ==
      (if Strip(l) != [] && !IsImageLine(Strip(l)) then [Strip(l)] else []) + KeptLines(rest)
  {
    KeptLinesAppend([l], rest);
    KeptLinesSingle(l);
  }

  /** Kept lines are stripped and non-empty. */
  lemma KeptLinesClean(lines: seq<string>)
    ensures forall l :: l in KeptLines(lines) ==> l != [] && Strip(l) == l && !IsImageLine(l)
  {
    KeptLinesSpec(lines);
    forall l | l in KeptLines(lines) ensures Strip(l) == l {
      var j :| 0 <= j < |lines| && l == Strip(lines[j]);
      StripIdempotent(lines[j]);
    }
  }

  /** A line that is already a paragraph's text survives unchanged. */
  predicate ParagraphText(l: string)
  {
    l != [] && Strip(l) == l && !IsImageLine(l) && '\n' !in l
  }

  lemma {:induction false} KeptLinesOfParagraphText(lines: seq<string>)
    requires forall k :: 0 <= k < |lines| ==> ParagraphText(lines[k])
    ensures KeptLines(lines) == lines
    decreases |lines|
  {
    if lines != [] {
      KeptLinesOfParagraphText(lines[..|lines| - 1]);
      assert lines == lines[..|lines| - 1] + [lines[|lines| - 1]];
    }
  }

  /**
   * Joining paragraph texts with newlines and rendering the result gives back
   * one paragraph per text, in order.
   */
  lemma ParagraphsOfJoinedLines(lines: seq<string>)
    requires forall k :: 0 <= k < |lines| ==> ParagraphText(lines[k])
    ensures Paragraphs(Join(lines, '\n')) == ParagraphsOf(lines)
  {
    if lines == [] {
      assert Split([], '\n') == [[]];
      assert KeptLines([[]]) == [];
    } else {
      SplitJoin(lines, '\n');
      KeptLinesOfParagraphText(lines);
    }
  }

  /** The facts of one chapter page that the templates depend on. */
  datatype ChapterPage = ChapterPage(
    fileName: string, title: string, bookHeading: Option<string>, pageBreakBefore: bool, paragraphs: seq<string>)

  function ChapterPageAt(chapters: seq<Chapter>, bookTitle: string, i: nat): ChapterPage
    requires i < |chapters|
  {
    ChapterPage(ChapterHref(i + 1), chapters[i].title, if i == 0 then Some(bookTitle) else None, i == 0,
                Paragraphs(chapters[i].content))
  }

  function ChapterPages(chapters: seq<Chapter>, bookTitle: string): seq<ChapterPage>
  {
    seq(|chapters|, i requires 0 <= i < |chapters| => ChapterPageAt(chapters, bookTitle, i))
  }

  /** Exactly one page, the first, carries the page break and the book-title heading. */
  lemma FirstPageOnly(chapters: seq<Chapter>, bookTitle: string)
    requires |chapters| >= 1
    ensures var pages := ChapterPages(chapters, bookTitle);
      pages[0].pageBreakBefore && pages[0].bookHeading == Some(bookTitle) &&
      (forall i, j :: 0 <= i < |pages| && 0 <= j < |pages| && pages[i].pageBreakBefore && pages[j].pageBreakBefore ==> i == j) &&
      (forall i, j :: 0 <= i < |pages| && 0 <= j < |pages| && pages[i].bookHeading.Some? && pages[j].bookHeading.Some? ==> i == j)
  {
  }

  lemma ChapterHrefAt(m: nat, images: seq<Image>, cover: Option<Image>, guess: string -> Option<string>, i: nat)
    requires i < m
    ensures 2 + |images| + i < |Manifest(m, images, cover, guess)|
    ensures Manifest(m, images, cover, guess)[2 + |images| + i].href == ChapterHref(i + 1)
  {
    ManifestAt(m, images, cover, guess, 2 + |images| + i);
  }

  /** Every chapter page is the file its manifest item names. */
  lemma ChapterPagesMatchManifest(chapters: seq<Chapter>, bookTitle: string, images: seq<Image>, cover: Option<Image>,
                                  guess: string -> Option<string>)
    ensures var pages := ChapterPages(chapters, bookTitle);
      forall i :: 0 <= i < |pages| ==> pages[i].fileName == Manifest(|chapters|, images, cover, guess)[2 + |images| + i].href
  {
    var pages := ChapterPages(chapters, bookTitle);
    forall i | 0 <= i < |pages|
      ensures pages[i].fileName == Manifest(|chapters|, images, cover, guess)[2 + |images| + i].href {
      ChapterHrefAt(|chapters|, images, cover, guess, i);
      assert pages[i] == ChapterPageAt(chapters, bookTitle, i);
    }
  }

  /** A book read from text always has exactly one page with the break: its first chapter's. */
  lemma ReadBookHasOneBreak(existing: seq<Chapter>, body: string, bookTitle: string)
    ensures var pages := ChapterPages(Segment(existing, body, bookTitle), bookTitle);
      |pages| >= 1 && pages[0].pageBreakBefore &&
      forall i :: 1 <= i < |pages| ==> !pages[i].pageBreakBefore
  {
    var chs := Segment(existing, body, bookTitle);
    SegmentNeverEmpty(existing, body, bookTitle);
    FirstPageOnly(chs, bookTitle);
  }

  // --------------------------------------------------------------- image pages

  datatype ImagePage = ImagePage(fileName: string, title: string, src: string)

  /** One page per ordinary image, titled `Image k`, showing that image. */
  function ImagePages(images: seq<Image>): seq<ImagePage>
  {
    seq(|images|, k requires 0 <= k < |images| =>
      ImagePage(ImagePageHref(k + 1), "Image " + NatStr(k + 1), ImageHref(images[k])))
  }

  /**
   * Each image page is the file its manifest item names, and shows the file
   * of the image's own manifest item.
   */
  lemma ImagePagesMatchManifest(m: nat, images: seq<Image>, cover: Option<Image>, guess: string -> Option<string>)
    ensures var pages := ImagePages(images);
      var man := Manifest(m, images, cover, guess);
      var c := CoverCount(cover);
      |pages| == |images| &&
      forall k :: 0 <= k < |pages| ==>
        pages[k].fileName == man[2 + k].href &&
        pages[k].src == man[2 + |images| + m + c + k].href && man[2 + |images| + m + c + k].id == images[k].id
  {
    var n := |images|;
    var c := CoverCount(cover);
    forall k | 0 <= k < n
      ensures ImagePages(images)[k].fileName == Manifest(m, images, cover, guess)[2 + k].href
      ensures Manifest(m, images, cover, guess)[2 + n + m + c + k] == ImageItem(images[k], guess)
    {
      ManifestAt(m, images, cover, guess, 2 + k);
      ManifestAt(m, images, cover, guess, 2 + n + m + c + k);
    }
  }
}

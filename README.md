# EPUB generator from plain text and images — verified model

`epub.py` turns a plain-text novel and a folder of pictures into an EPUB book.
The first line of the text is the book title. The remaining lines are cut into
chapters wherever a line looks like a chapter heading. The image folder supplies
one cover picture and any number of illustrations, each illustration getting a
page of its own between the cover page and the first chapter.

This project models, in Dafny, the logic that decides what goes into the book:

- **Markers** (`markers.dfy`): the four chapter-heading patterns, read with the
  matching rules of Python's `re.match`, and the loop that tries them in order.
- **Segmenter** (`segmenter.dfy`): the title rule and the line-by-line chapter
  scan of `read_txt_file`. The scan is a fold (`Step`/`Run`), and it is proved
  equal to an independent definition that cuts the lines at every marker
  (`Sections`).
- **Ordering and Assets** (`ordering.dfy`, `assets.dfy`): how image files are
  collected. They are filtered by extension, sorted the way Python sorts
  strings, and classified as cover or ordinary, with ordinary images numbered
  `img_1..img_n`.
- **Sanitize** (`sanitize.dfy`): the two regular-expression clean-ups, read as
  the left-to-right scans `re.sub` performs.
- **Package** (`package.dfy`):
  - the manifest and spine of `content.opf`;
  - the navigation points of `toc.ncx` and the entries of `nav.xhtml`;
  - the per-page facts of chapter pages (paragraphs, page break, book heading)
    and of image pages.

  Each is a sequence of entries, not markup text.
- **Generator** (`generator.dfy`): the `EpubGenerator` object, whose fields
  match the Python object's. Its methods carry the source's own loops and are
  proved equal to the functions above.
- `text.dfy` and `wrappers.dfy`: the Python string operations the code relies
  on, and `Option`.
  - The `str` operations are `strip` (with the exact set of whitespace code
    points `str.isspace` accepts), `split('\n')`, `'\n'.join` and `in`.
  - `str(n)` is `NatStr`.

Python's integers and strings are unbounded, like Dafny's, so no wrap-around
arises. Strings are sequences of code points.

`_create_chapters_html` (epub.py:403-409) drops every blank line. A blank
line inside a chapter therefore only separates text in the stored chapter
content and never becomes a paragraph: `Package.KeptLines` never yields a blank
line.

## Model

| member | source | states |
|---|---|---|
| Text.StripIsInfix | epub.py:73 | `strip()` returns the slice of the line between its leading and trailing whitespace; everything cut off is whitespace and the result neither starts nor ends with whitespace |
| Text.StripEmptyIffBlank | epub.py:74 | a stripped line is empty exactly when every character of the line is whitespace |
| Text.StripIdempotent | epub.py:88 | stripping twice is stripping once, so a stored chapter content is already stripped |
| Text.SplitJoin | epub.py:50-53 | joining newline-free parts with `'\n'` and splitting again gives back the parts |
| Text.JoinSplit | epub.py:50-53 | splitting on `'\n'` and joining again gives back the text |
| Text.SplitPartsHaveNoSep | epub.py:67 | no line produced by `split('\n')` holds a newline |
| Text.NatStrInjective | epub.py:128 | different numbers have different decimal strings, so `img_{k}` ids differ |
| Text.ParseNatStr | epub.py:128 | the decimal string of a number reads back as that number |
| Markers.Matches | epub.py:60-65 | (definition) each pattern as `re.match` reads it: anchored at the start of the stripped line, with `.*$` and `$` read as Python reads them |
| Markers.IsMarker | epub.py:78-82 | (definition) a line is a chapter heading when at least one of the four patterns matches it |
| Markers.IsChapterTitle | epub.py:78-82 | trying the patterns in order and stopping at the first match answers true exactly when some pattern matches |
| Markers.NumeralChapterIff | epub.py:61 | the first pattern matches exactly when the line starts with `第`, one or more Chinese numerals or digits, then `章`; whatever follows is free (backtracking gains nothing over the greedy run) |
| Markers.EnglishChapterIff | epub.py:62 | the second pattern matches exactly when the line starts with `Chapter`, a run of whitespace that may be empty, then a digit; whatever follows is free |
| Markers.SingleLinePatterns | epub.py:63-64 | on a line without newline, the third pattern is digits followed by `.`, and the fourth is a line of at least two characters that starts with `【` and ends with `】` |
| Markers.EmptyIsNoMarker | epub.py:60-65 | no pattern matches the empty line, so blank lines are never markers |
| Markers.FirstChapterLineIsMarker | epub.py:61 | `第1章 开端` is a chapter marker |
| Segmenter.BodyLinesAreSingleLines | epub.py:67-80 | every line the loop tests holds no newline, so on it pattern 3 is digits then a dot, and pattern 4 is a line that starts with `【` and ends with `】` |
| Segmenter.BookTitle | epub.py:50-58 | the title is the stripped first line; when that is blank or `未命名小说`, the file stem replaces it, but only when the stem is non-empty |
| Segmenter.Keep | epub.py:85-89 | the pending chapter is dropped exactly when its text is all whitespace; otherwise it is kept once, with its title and its text stripped (which is non-empty and already stripped) |
| Segmenter.Step | epub.py:72-95 | (definition) one iteration: a blank line adds a newline; a marker line closes the pending chapter and becomes the next title; any other line adds its stripped text and a newline |
| Segmenter.Flush | epub.py:97-101 | (definition) after the loop the pending chapter is added when its text is not blank |
| Segmenter.Segment | epub.py:67-107 | (definition) the loop over the body's lines from `前言` and empty text, the final flush, and the fallback chapter when the list is still empty |
| Segmenter.Sections | epub.py:84-95 | (definition) the independent reference: the lines cut before every marker line, the first section titled `前言`, each later one titled by its stripped marker |
| Segmenter.RunAsSections | epub.py:67-101 | the loop's chapters equal those obtained by cutting the lines at every marker line and keeping each non-blank section under the marker that opens it |
| Segmenter.SegmentBySections | epub.py:67-107 | the whole segmentation is the section cut, or, when that finds nothing, the one fallback chapter |
| Segmenter.SectionTitlesAreMarkers | epub.py:84-93 | the section titles are `前言` and then each marker line, in the order of the text |
| Segmenter.SectionLinesAreNonMarkers | epub.py:84-95 | the section texts together hold exactly the non-marker lines, in order; a marker line is never part of any content |
| Segmenter.SectionsHoldNoMarker | epub.py:84-95 | no section holds a line that is a marker |
| Segmenter.KeepAllContents | epub.py:85-101 | every chapter added in or after the loop has stripped, non-empty content |
| Segmenter.KeepAllTitles | epub.py:85-101 | the kept chapters' titles are a subsequence of the section titles |
| Segmenter.LoopChaptersShape | epub.py:72-101 | for one call: contents stripped and non-empty, titles a subsequence of `前言` and the marker lines in order, at most one chapter per marker plus one |
| Segmenter.SegmentNeverEmpty | epub.py:103-107 | the chapter list is never empty; with nothing found it is exactly one chapter titled with the book title and holding the stripped body |
| Ordering.LexLeTotal | epub.py:124 | string order is total |
| Ordering.LexLeTrans | epub.py:124 | string order is transitive |
| Ordering.LexLeAntisym | epub.py:124 | string order is antisymmetric |
| Ordering.SortNames | epub.py:124 | (definition) `list.sort` on names, as insertion sort under code-point order |
| Ordering.SortNamesSpec | epub.py:124 | the sort returns an ordered permutation of its input |
| Ordering.SortedUnique | epub.py:124 | two ordered permutations of the same names are equal, so the order is the one `list.sort` gives |
| Ordering.ExampleOrder | epub.py:124 | `a.png` sorts before `cover.png` before `z.png` |
| Assets.Suffix | epub.py:121 | (definition) pathlib's `suffix`: from the last dot, when that dot is neither the first nor the last character |
| Assets.Stem | epub.py:56 | (definition) pathlib's `stem`: the name without that suffix |
| Assets.StemSuffix | epub.py:56 | stem and suffix split the name; a suffix is empty or a dot followed by dot-free text; a non-empty name has a non-empty stem; a non-empty suffix starts at an interior dot, and when the last dot is interior the suffix is the name from that dot on |
| Assets.FilterSupported | epub.py:117-122 | (definition) the names whose lower-cased suffix is one of the six formats, in listing order |
| Assets.IsCoverName | epub.py:130 | (definition) the lower-cased name contains `cover` or `封面` |
| Assets.FilterSupportedCounts | epub.py:117-122 | the filter keeps every name whose lower-cased suffix is supported, as often as listed, and nothing else |
| Assets.OrdinaryCounts | epub.py:126-141 | the ordinary images are exactly the non-cover names, as often as they occur |
| Assets.OrdinarySorted | epub.py:124-141 | ordinary images keep the sorted order |
| Assets.LastCover | epub.py:130-135 | (definition) the last cover name in sorted order, since each cover name overwrites the slot |
| Assets.LastCoverSpec | epub.py:130-135 | the cover slot holds the last cover name in order; it stays unset exactly when no name is a cover |
| Assets.JoinPath | epub.py:127 | (definition) POSIX `os.path.join` (`posixpath.join`) of a folder and one name: an absolute name wins and a `/` is added only when missing |
| Assets.ImgId | epub.py:128 | (definition) `img_` followed by the decimal number |
| Assets.OrdinaryImages | epub.py:126-141 | (definition) the classification loop's appended images: each non-cover name, with the next number after those already present |
| Assets.OrdinaryImagesNumbered | epub.py:126-141 | the classification loop appends exactly the non-cover names, in order, with their joined paths and ids `img_<start+1>`, `img_<start+2>`, … |
| Assets.CollectedOrdinary | epub.py:117-141 | the ordinary images are the supported non-cover names of the listing, each as often as listed, in sorted order |
| Assets.CollectedCover | epub.py:117-135 | the chosen cover is a supported cover name of the listing that is greatest in sort order; there is none exactly when the listing has no supported cover name |
| Sanitize.RewriteOpen | epub.py:31 | (definition) the first `re.sub` as a left-to-right scan: at `<div` followed by `>` or by whitespace and text up to the first `>`, the tag is renamed and the scan resumes after it |
| Sanitize.RewriteClose | epub.py:32 | (definition) the second `re.sub`: every `</div>` renamed, scanning left to right |
| Sanitize.SanitizeContent | epub.py:29-33 | (definition) the first substitution, then the second |
| Sanitize.RewriteOpenAt | epub.py:31 | at the first `<` of the text, an opening `div` tag (bare, or whitespace and attributes without `>`) becomes `<section` with the same attributes; the text before it is kept and the scan goes on after the tag |
| Sanitize.RewriteCloseAt | epub.py:32 | at the first `<` of the text, `</div>` becomes `</section>`; the text before it is kept and the scan goes on after it |
| Sanitize.SanitizeContentUnchanged | epub.py:29-33 | text with neither `<div` nor `</div>` comes back unchanged |
| Sanitize.SanitizeDivTag | epub.py:29-33 | both passes at the first tag of the text, an opening `div` tag (attributes without `<`): the text before it is kept, the tag becomes a `section` tag with the same attributes, and the rest is sanitised in turn |
| Sanitize.SanitizeCloseTag | epub.py:29-33 | both passes at the first tag of the text, `</div>`: the text before it is kept, the tag becomes `</section>`, and the rest is sanitised in turn |
| Sanitize.SanitizeOtherBracket | epub.py:29-33 | both passes at a first `<` that starts neither pattern: everything up to and including it is kept, and the rest is sanitised in turn |
| Sanitize.SanitizeContentNoCloseDiv | epub.py:32 | whatever the input, no `</div>` is left after sanitising, including none formed across a rewritten tag |
| Sanitize.DivPrefixKept | epub.py:31 | a tag whose name only starts with `div` (such as `<divider>`, no `>` or whitespace after `div`) is left alone |
| Sanitize.StripTags | epub.py:37 | (definition) `re.sub(r'<[^>]+>', '', title)` as a left-to-right scan: a `<` followed by at least one non-`>` character and a `>` is deleted up to that `>` |
| Sanitize.SanitizeTitle | epub.py:35-39 | (definition) tags deleted, then `strip()` |
| Sanitize.StripTagsPlain | epub.py:37 | text without `<` is kept, and the scan goes on with what follows it |
| Sanitize.StripTagsAt | epub.py:37 | at the first `<` of the text, followed by at least one non-`>` character and a `>`: the text before it is kept and the tag up to that first `>` is deleted |
| Sanitize.StripTagsKeepsBracket | epub.py:37 | a first `<` with no `>` after it, or with `>` right after it, is kept |
| Sanitize.SanitizeTitlePlain | epub.py:35-39 | a title without `<` changes only by stripping |
| Sanitize.StripTagsChars | epub.py:37 | deleting tags introduces no character |
| Sanitize.SanitizeTitleClean | epub.py:35-39 | the sanitised title holds no tag, is stripped, and sanitising it again changes nothing |
| Package.MediaType | epub.py:213-218 | (definition) the guessed media type of the image path, or `image/jpeg` when there is none |
| Package.Manifest | epub.py:195-221 | (definition) the items in the order they are appended: cover page, navigation document, image pages, chapters, the cover image when set, the ordinary images, `toc.ncx` |
| Package.Spine | epub.py:197-209 | (definition) the cover page, then the image pages, then the chapters |
| Package.IdTextInjective | epub.py:195-221 | distinct manifest ids are written as distinct strings |
| Package.OpfMetadata | epub.py:223-233 | the metadata title is the sanitised title (tag-free and stripped); the cover meta element is present exactly when there is a cover |
| Package.ManifestIdsDistinct | epub.py:195-221 | with images numbered `img_1..img_n`, no two manifest items share an id |
| Package.ManifestLayout | epub.py:195-221 | the manifest holds `3 + 2n + m` items, plus one with a cover; `cover` and `nav` come first and `ncx` last; only `nav` has properties; `cover_img` is present exactly when there is a cover |
| Package.SpineMatchesManifest | epub.py:197-209 | the spine is the cover page, then the manifest's image pages and chapters in the manifest's order; every entry names an XHTML manifest item; `nav` is not in the spine |
| Package.SpineExample | epub.py:197-209 | two images and three chapters give `cover, image_page_1, image_page_2, chapter_1, chapter_2, chapter_3` |
| Package.CoverMetaResolves | epub.py:212-214 | the cover meta element refers to a manifest item |
| Package.NavPoints | epub.py:300-307 | (definition) one navigation point per chapter: `navpoint-k`, play order k, the chapter title, `chapter_k.xhtml` |
| Package.NavPointsFollowChapters | epub.py:299-307 | one navigation point per chapter in order, labelled with its title and targeting its manifest item, at the same place as in the spine |
| Package.PlayOrdersContiguous | epub.py:297-307 | play orders rise with the position and are exactly 1 to m |
| Package.NavPointsSkipImagePages | epub.py:299-307 | no navigation point targets an image page |
| Package.NavEntries | epub.py:333-334 | (definition) one list entry per chapter: `chapter_k.xhtml` and the chapter title |
| Package.NavAgreesWithNcx | epub.py:332-334 | the navigation document lists the same targets with the same labels as `toc.ncx`, in the same order |
| Package.KeptLines | epub.py:403-409 | (definition) the content lines, stripped, without the blank ones and those starting `[图片` or `![` |
| Package.KeptLinesSpec | epub.py:403-409 | a paragraph text is kept exactly when it is a stripped content line that is non-blank and starts with neither `[图片` nor `![` |
| Package.KeptLinesClean | epub.py:403-409 | kept paragraph texts are stripped, non-empty and not image lines |
| Package.ParagraphsOfJoinedLines | epub.py:403-409 | newline-joined paragraph texts render as one `<p>` per text, in order |
| Package.KeptLinesSingle | epub.py:403-409 | one line yields its stripped text exactly when that text is neither blank nor an image line, and nothing otherwise |
| Package.KeptLinesAppend | epub.py:403-409 | the filter works line by line: the kept lines of `a + b` are those of `a` followed by those of `b`, so order and repetitions are kept whatever blank or image lines lie between |
| Package.KeptLinesCons | epub.py:403-409 | the kept lines of a first line and the rest are that line's own contribution followed by the rest's kept lines |
| Package.ChapterPages | epub.py:401-474 | (definition) per chapter: file `chapter_k.xhtml`, its title, its paragraphs, and on the first page only the page break and the book heading |
| Package.FirstPageOnly | epub.py:411-414 | the first chapter page alone has the page break and the book-title heading |
| Package.ChapterPagesMatchManifest | epub.py:206-208 | chapter page k is the file its chapter manifest item names |
| Package.ReadBookHasOneBreak | epub.py:103-107 | a book read from text always has exactly one page with the break, its first chapter's |
| Package.ImagePages | epub.py:358-392 | (definition) per ordinary image: file `image_page_k.xhtml`, title `Image k`, picture `images/<filename>` |
| Package.ImagePagesMatchManifest | epub.py:356-397 | image page k is the k-th image-page manifest item and shows the file of the k-th image's manifest item |
| Generator.ContentParagraphs | epub.py:402-409 | the paragraph loop builds the paragraphs the page specification gives |
| Generator.SupportedFiles | epub.py:118-122 | the listing loop keeps the supported names in listing order |
| Generator.EpubGenerator.constructor | epub.py:20-27 | a fresh generator has no chapters, no images and no cover, the default title, author and language, and the given identifier |
| Generator.EpubGenerator.ReadTxtFile | epub.py:50-107 | the title rule and the line loop set the title and append exactly the segmentation's chapters; nothing else changes |
| Generator.ScanLine | epub.py:72-95 | one pass of the line loop body (strip, blank test, pattern loop, flush of the pending chapter, accumulation) leaves exactly the locals that one segmentation step gives |
| Generator.EpubGenerator.SplitChapters | epub.py:64-107 | the line loop and the fallback append exactly the chapters of the segmentation of the body; nothing else changes |
| Generator.EpubGenerator.AddImages | epub.py:111-141 | a missing folder changes nothing; otherwise the images grow by the numbered ordinary images of the sorted supported names, the cover slot is updated, and ids stay `img_1..img_n` |
| Generator.ClassifyStep | epub.py:126-141 | one name of the classification loop keeps ordinary images numbered `img_1..img_n` and free of cover names, and the cover slot a cover-named image with id `cover` |
| Generator.EpubGenerator.Classify | epub.py:125-140 | the classification loop appends exactly the numbered ordinary images of the names and leaves the last cover name in the cover slot |
| Generator.EpubGenerator.ClassifyOne | epub.py:126-140 | a cover name takes the cover slot; any other name becomes the next numbered image with its joined path |
| Generator.EpubGenerator.SetMetadata | epub.py:146-152 | a given title and author replace the old ones; the language is always set |
| Generator.EpubGenerator.CreateContentOpf | epub.py:190-233 | the appending loops build exactly the manifest, spine and metadata of the package specification |
| Generator.EpubGenerator.CreateTocNcx | epub.py:295-323 | the loop with its play-order counter builds exactly the specified navigation points, with the identifier and the unsanitised title |
| Generator.EpubGenerator.CreateNavXhtml | epub.py:328-351 | the loop builds exactly the specified navigation entries |
| Generator.EpubGenerator.CreateImagePages | epub.py:356-397 | one page per image, titled `Image k` and showing `images/<filename>` |
| Generator.EpubGenerator.CreateChaptersHtml | epub.py:399-481 | one page per chapter with its paragraphs; the page break and the book heading on the first page only |

## Left out

- Reading the file and the fallback from UTF-8 to GBK (epub.py:43-48) are I/O and codec behaviour. `ReadTxtFile` takes the decoded text and the file name. That text is what the file holds after text-mode reading has turned `\r\n` and `\r` into `\n`, so no line the model splits ends in `\r` (a stray `\r` would in any case be removed by `Strip`, since it is whitespace).
- Assets.JoinPath: models POSIX path joining only; Windows paths, where `\` is a separator and drive letters are special, are not modelled.
- Directory existence and `os.listdir` (epub.py:113-120) are file-system calls. `AddImages` takes the listing as a parameter, with None standing for a folder that does not exist.
- `uuid.uuid4` and `datetime.now` are nondeterministic. The identifier and the date are parameters.
- `mimetypes.guess_type` is a foreign library. It is the parameter `guess`, and `image/jpeg` is used when it gives nothing.
- The model does not write the XHTML/CSS templates, `mimetype`, `container.xml` or `cover.xhtml` (epub.py:176-188, 246-293), and none of their text is modelled. The rule that the archive stores `mimetype` first and uncompressed (section 3.3 of the EPUB Open Container Format 3.0.1, epub.py:492-502) is archive I/O and is not modelled either.
- The model does not copy the images (epub.py:483-490), build the zip archive (epub.py:492-502), or remove the scratch directory (epub.py:504-507).
- `generate_epub` (epub.py:154-174) is not a member. It only sequences the file-writing steps; the methods that compute those steps' contents are modelled one by one.
- `process_all_txt_files` (epub.py:510-553) is the batch driver, and all `print` diagnostics are console output.
- The whole-page `_sanitize_content` pass (epub.py:290, 394, 478) runs over each finished cover, image and chapter page. It therefore also rewrites any `div` tag inside the chapter title, the book heading, the paragraphs and the image file name. The fields of `ChapterPage` and `ImagePage` hold these values before that pass. The pass over the assembled page is not modelled, because the page templates are not modelled. What the pass does to any text is proved in `Sanitize`.
- `chapter_count` (epub.py:70, 93) is counted but never read, so the model leaves it out.
- The regular-expression class `\d` is read as the ASCII digits only, while Python also accepts other Unicode decimal digits. `\s` and `strip()` use Python's exact whitespace set.
- Assets.IsCoverName: `Lower` folds ASCII letters only, where Python's `str.lower` folds every cased letter. Both the cover test and the extension test compare against lower-case ASCII text. The only non-ASCII capitals whose lower case contains an ASCII letter are the Kelvin sign (to `k`) and the dotted capital I (to `i` and a combining dot). Neither can complete `cover` or a supported extension, so the simplification should not change either answer. This is not proved.
- Segmenter.BookTitle: the stem is taken from a plain file name. The directory part of a path is not modelled.
- Sanitize: the sanitiser works on the content alone. When an attribute text holds another `<div …>`, the one left-to-right pass does not rescan it, and the model has the same behaviour. No property about nested tags is claimed.
- Generator.EpubGenerator.SetMetadata: the Python default `language='zh'` (epub.py:146) is not a Dafny default argument. A caller that omits the language passes `DefaultLanguage` (`zh`).
- Sanitize.SanitizeDivTag: stated for attributes without `<`. With a `<` inside the attributes, the second pass may also rewrite text there, such as `</div` completed by the tag's `>`. The first pass alone is stated for any attributes in `Sanitize.RewriteOpenAt`.

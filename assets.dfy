/**
 * The asset collector of `add_images`, given the folder's listing: keep names
 * with a supported extension, sort them, and split them into the cover (a name
 * mentioning `cover` or `封面`, the last one in sorted order) and the ordinary
 * images, numbered `img_1` onwards.
 */
module Assets {
  import opened Wrappers
  import opened Text
  import opened Ordering

  datatype Image = Image(id: string, path: string, filename: string)

  /** `name.rfind(c)`, with None for -1. */
  function LastIndexOf(name: string, c: char): (r: Option<nat>)
    ensures r.Some? ==> r.value < |name| && name[r.value] == c
    ensures r.Some? ==> forall k :: r.value < k < |name| ==> name[k] != c
    ensures r.None? ==> c !in name
    decreases |name|
  {
    if name == [] then None
    else if name[|name| - 1] == c then Some(|name| - 1)
    else LastIndexOf(name[..|name| - 1], c)
  }

  /** pathlib's `suffix`: from the last dot, unless the dot leads or ends the name. */
  function Suffix(name: string): string
  {
    match LastIndexOf(name, '.')
    case Some(i) => if 0 < i < |name| - 1 then name[i..] else []
    case None => []
  }

  /** pathlib's `stem`: the name without its suffix. */
  function Stem(name: string): string
  {
    match LastIndexOf(name, '.')
    case Some(i) => if 0 < i < |name| - 1 then name[..i] else name
    case None => name
  }

  /** A name splits into its stem and its suffix; a suffix is empty or a dot and a dot-free rest. */
  lemma StemSuffix(name: string)
    ensures Stem(name) + Suffix(name) == name
    ensures Suffix(name) == [] || (|Suffix(name)| >= 2 && Suffix(name)[0] == '.' && '.' !in Suffix(name)[1..])
    ensures Stem(name) != [] || name == []
    ensures Suffix(name) != [] ==> exists i :: 0 < i < |name| - 1 && name[i] == '.' && Suffix(name) == name[i..]
    ensures forall i :: 0 < i < |name| - 1 && name[i] == '.' && '.' !in name[i + 1..] ==> Suffix(name) == name[i..]
  {
    match LastIndexOf(name, '.')
    case Some(j) =>
      if 0 < j < |name| - 1 {
        assert name[..j] + name[j..] == name;
        assert forall c :: c in name[j..][1..] ==> c in name[j + 1..];
      }
      forall i | 0 < i < |name| - 1 && name[i] == '.' && '.' !in name[i + 1..]
        ensures Suffix(name) == name[i..]
      {
        assert i == j;
      }
    case None =>
  }

  const SupportedFormats: set<string> := {".jpg", ".jpeg", ".png", ".gif", ".bmp", ".webp"}

  predicate IsSupported(name: string)
  {
    Lower(Suffix(name)) in SupportedFormats
  }

  /** The first loop of `add_images`: the supported names, in listing order. */
  function FilterSupported(names: seq<string>): seq<string>
    decreases |names|
  {
    if names == [] then []
    else
      var last := names[|names| - 1];
      FilterSupported(names[..|names| - 1]) + (if IsSupported(last) then [last] else [])
  }

  /** Every supported name is kept as often as it is listed; nothing else is kept. */
  lemma {:induction false} FilterSupportedCounts(names: seq<string>, x: string)
    ensures multiset(FilterSupported(names))[x] == if IsSupported(x) then multiset(names)[x] else 0
    decreases |names|
  {
    if names != [] {
      var init, last := names[..|names| - 1], names[|names| - 1];
      assert names == init + [last];
      FilterSupportedCounts(init, x);
    }
  }

  predicate IsCoverName(name: string)
  {
    Contains(Lower(name), "cover") || Contains(Lower(name), "封面")
  }

  /** The names that become ordinary images, in order. */
  function OrdinaryNames(names: seq<string>): seq<string>
    decreases |names|
  {
    if names == [] then []
    else
      var last := names[|names| - 1];
      OrdinaryNames(names[..|names| - 1]) + (if IsCoverName(last) then [] else [last])
  }

  /** The last cover name, in order. */
  function LastCover(names: seq<string>): Option<string>
    decreases |names|
  {
    if names == [] then None
    else if IsCoverName(names[|names| - 1]) then Some(names[|names| - 1])
    else LastCover(names[..|names| - 1])
  }

  lemma {:induction false} OrdinaryCounts(names: seq<string>, x: string)
    ensures multiset(OrdinaryNames(names))[x] == if IsCoverName(x) then 0 else multiset(names)[x]
    decreases |names|
  {
    if names != [] {
      var init, last := names[..|names| - 1], names[|names| - 1];
      assert names == init + [last];
      OrdinaryCounts(init, x);
    }
  }

  /** Dropping the covers from a sorted list leaves it sorted. */
  lemma {:induction false} OrdinarySorted(names: seq<string>)
    requires SortedLex(names)
    ensures SortedLex(OrdinaryNames(names))
    decreases |names|
  {
    if names != [] {
      var init, last := names[..|names| - 1], names[|names| - 1];
      assert SortedLex(init);
      OrdinarySorted(init);
      if !IsCoverName(last) {
        var o := OrdinaryNames(init);
        forall y | y in o ensures LexLe(y, last) {
          OrdinaryCounts(init, y);
          assert y in multiset(o);
          assert y in multiset(init);
          var k :| 0 <= k < |init| && init[k] == y;
          assert names[k] == y;
        }
        var r := o + [last];
        forall i, j | 0 <= i < j < |r| ensures LexLe(r[i], r[j]) {
          if j == |o| { assert r[i] in o; } else { assert r[i] == o[i] && r[j] == o[j]; }
        }
      }
    }
  }

  /** `names[j]` is a cover and no cover follows it. */
  predicate LastCoverAt(names: seq<string>, j: int)
  {
    0 <= j < |names| && IsCoverName(names[j]) && forall k :: j < k < |names| ==> !IsCoverName(names[k])
  }

  /** LastCover finds the last cover name, or reports that there is none. */
  lemma {:induction false} LastCoverSpec(names: seq<string>)
    ensures LastCover(names).Some? ==> exists j :: LastCoverAt(names, j) && names[j] == LastCover(names).value
    ensures LastCover(names).None? <==> forall k :: 0 <= k < |names| ==> !IsCoverName(names[k])
    decreases |names|
  {
    if names != [] {
      var init, last := names[..|names| - 1], names[|names| - 1];
      if IsCoverName(last) {
        assert LastCoverAt(names, |names| - 1);
      } else {
        LastCoverSpec(init);
        if LastCover(init).Some? {
          var j :| LastCoverAt(init, j) && init[j] == LastCover(init).value;
          assert LastCoverAt(names, j);
        }
        if forall k :: 0 <= k < |init| ==> !IsCoverName(init[k]) {
          forall k | 0 <= k < |names| ensures !IsCoverName(names[k]) {
            if k < |init| { assert names[k] == init[k]; }
          }
        }
      }
    }
  }

  /** The names `add_images` classifies: the supported ones, sorted. */
  function Collected(listing: seq<string>): seq<string>
  {
    SortNames(FilterSupported(listing))
  }

  /** `os.path.join(folder, name)` for one component. */
  function JoinPath(folder: string, name: string): string
  {
    if StartsWith(name, "/") || folder == [] then name
    else if folder[|folder| - 1] == '/' then folder + name
    else folder + "/" + name
  }

  /** The id of the `k`-th ordinary image. */
  function ImgId(k: nat): string
  {
    "img_" + NatStr(k)
  }

  /**
   * The ordinary images the classification loop appends for `names`, one name
   * at a time, numbered after `start` images already present.
   */
  function OrdinaryImages(folder: string, names: seq<string>, start: nat): seq<Image>
    decreases |names|
  {
    if names == [] then []
    else
      var prev := OrdinaryImages(folder, names[..|names| - 1], start);
      var last := names[|names| - 1];
      prev + (if IsCoverName(last) then [] else [Image(ImgId(start + |prev| + 1), JoinPath(folder, last), last)])
  }

  /** Images for `ord` in order, with ids counting on from `start`. */
  function NumberedImages(folder: string, ord: seq<string>, start: nat): seq<Image>
  {
    seq(|ord|, k requires 0 <= k < |ord| => Image(ImgId(start + k + 1), JoinPath(folder, ord[k]), ord[k]))
  }

  lemma NumberedImagesSnoc(folder: string, ord: seq<string>, x: string, start: nat)
    ensures NumberedImages(folder, ord + [x], start) ==
      NumberedImages(folder, ord, start) + [Image(ImgId(start + |ord| + 1), JoinPath(folder, x), x)]
  {
    var a := NumberedImages(folder, ord + [x], start);
    var b := NumberedImages(folder, ord, start) + [Image(ImgId(start + |ord| + 1), JoinPath(folder, x), x)];
    forall k | 0 <= k < |a| ensures a[k] == b[k] {
      if k < |ord| {
        assert (ord + [x])[k] == ord[k];
      }
    }
  }

  /** The cover slot after classifying `names`: the last cover name, or `previous` when none. */
  function CoverAfter(folder: string, names: seq<string>, previous: Option<Image>): Option<Image>
  {
    match LastCover(names)
    case Some(c) => Some(Image("cover", JoinPath(folder, c), c))
    case None => previous
  }

  /** One more name in the classification loop: a cover name adds no image, any other adds the next one. */
  lemma OrdinaryImagesSnoc(folder: string, names: seq<string>, x: string, start: nat)
    ensures OrdinaryImages(folder, names + [x], start) == OrdinaryImages(folder, names, start) +
      (if IsCoverName(x) then []
       else [Image(ImgId(start + |OrdinaryImages(folder, names, start)| + 1), JoinPath(folder, x), x)])
  {
    var ns := names + [x];
    assert ns[..|ns| - 1] == names;
  }

  /**
   * The loop's images are the ordinary names in order, each with its path,
   * numbered consecutively after `start`.
   */
  lemma {:induction false} OrdinaryImagesNumbered(folder: string, names: seq<string>, start: nat)
    ensures OrdinaryImages(folder, names, start) == NumberedImages(folder, OrdinaryNames(names), start)
    decreases |names|
  {
    if names != [] {
      var init, x := names[..|names| - 1], names[|names| - 1];
      assert names == init + [x];
      OrdinaryImagesNumbered(folder, init, start);
      OrdinaryImagesSnoc(folder, init, x, start);
      OrdinaryNamesSnoc(init, x);
      if !IsCoverName(x) {
        NumberedImagesSnoc(folder, OrdinaryNames(init), x, start);
      }
    }
  }

  lemma OrdinaryNamesSnoc(names: seq<string>, x: string)
    ensures OrdinaryNames(names + [x]) == OrdinaryNames(names) + (if IsCoverName(x) then [] else [x])
  {
    var ns := names + [x];
    assert ns[..|ns| - 1] == names;
  }

  /** One more name in the classification loop: a cover name takes the cover slot. */
  lemma CoverAfterSnoc(folder: string, names: seq<string>, x: string, previous: Option<Image>)
    ensures CoverAfter(folder, names + [x], previous) ==
      if IsCoverName(x) then Some(Image("cover", JoinPath(folder, x), x)) else CoverAfter(folder, names, previous)
  {
    var ns := names + [x];
    assert ns[..|ns| - 1] == names;
  }

  /**
   * What the collector keeps: the ordinary names are the supported, non-cover
   * names of the listing (each as often as listed), in sorted order.
   */
  lemma CollectedOrdinary(listing: seq<string>)
    ensures SortedLex(OrdinaryNames(Collected(listing)))
    ensures forall x :: multiset(OrdinaryNames(Collected(listing)))[x] ==
                        if IsSupported(x) && !IsCoverName(x) then multiset(listing)[x] else 0
  {
    var f := FilterSupported(listing);
    SortNamesSpec(f);
    OrdinarySorted(SortNames(f));
    forall x ensures multiset(OrdinaryNames(Collected(listing)))[x] ==
      if IsSupported(x) && !IsCoverName(x) then multiset(listing)[x] else 0 {
      OrdinaryCounts(SortNames(f), x);
      FilterSupportedCounts(listing, x);
    }
  }

  /**
   * The cover the collector picks is the greatest supported cover name of the
   * listing in sorted order; there is none exactly when no supported name is a cover.
   */
  lemma CollectedCover(listing: seq<string>)
    ensures LastCover(Collected(listing)).Some? ==>
      var c := LastCover(Collected(listing)).value;
      c in listing && IsSupported(c) && IsCoverName(c) &&
      forall y :: y in listing && IsSupported(y) && IsCoverName(y) ==> LexLe(y, c)
    ensures LastCover(Collected(listing)).None? <==>
      forall y :: y in listing && IsSupported(y) ==> !IsCoverName(y)
  {
    var f := FilterSupported(listing);
    var s := Collected(listing);
    SortNamesSpec(f);
    LastCoverSpec(s);
    forall y ensures y in s <==> y in listing && IsSupported(y) {
      FilterSupportedCounts(listing, y);
      assert y in s <==> y in multiset(s);
      assert y in multiset(s) <==> y in multiset(f);
    }
    if LastCover(s).Some? {
      var j :| LastCoverAt(s, j) && s[j] == LastCover(s).value;
      forall y | y in listing && IsSupported(y) && IsCoverName(y) ensures LexLe(y, s[j]) {
        var k :| 0 <= k < |s| && s[k] == y;
        if k == j { LexLeRefl(y); }
      }
    }
    if forall k :: 0 <= k < |s| ==> !IsCoverName(s[k]) {
      forall y | y in listing && IsSupported(y) ensures !IsCoverName(y) {
        var k :| 0 <= k < |s| && s[k] == y;
      }
    }
  }
}

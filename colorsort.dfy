/**
 * The collection sorter `AnalyzedImage.colorsort`: split the images into
 * color and black-and-white lists, stable-sort the color list by
 * (sort metric, dominant value) and the black-and-white list by dominant
 * value, rotate the color list so that an optional anchor image comes first,
 * and return the color list followed by the black-and-white list, together
 * with the two lists.
 */
module ImageSorting {
  import opened Wrappers
  import opened Sorting
  import opened AnalyzedImage

  /** The key of a color image: its sort metric, then its dominant value. */
  function ColorKey(im: Analyzed): (k: Key)
    ensures k.primary == SortMetric(im) && k.secondary == DominantColor(im, true).c2
  {
    Key(SortMetric(im), im.dominantHsv[0].c2)
  }

  /** The key of a black-and-white image: its dominant value alone. */
  function BwKey(im: Analyzed): (k: Key)
    ensures k == Key(DominantColor(im, true).c2, 0)
  {
    Key(im.dominantHsv[0].c2, 0)
  }

  /** Python's truth test `if anchor_image:` rejects both None and the empty string. */
  predicate AnchorGiven(anchor: Option<string>)
  {
    anchor.Some? && anchor.value != ""
  }

  /** The first position of `s` holding an image called `name`, if any. */
  function FindName(s: seq<Analyzed>, name: string): (r: Option<nat>)
    ensures r.Some? ==> r.value < |s| && s[r.value].name == name
    ensures r.Some? ==> forall j :: 0 <= j < r.value ==> s[j].name != name
    ensures r.None? ==> forall j :: 0 <= j < |s| ==> s[j].name != name
  {
    if |s| == 0 then None
    else if s[0].name == name then Some(0)
    else
      match FindName(s[1..], name)
      case None => None
      case Some(k) => Some(k + 1)
  }

  /**
   * The starting index of the rotation: the anchor's first position, or 0
   * when no anchor is given or none of `s` carries its name.
   */
  function AnchorIndex(s: seq<Analyzed>, anchor: Option<string>): (k: nat)
    ensures k == 0 || k < |s|
  {
    if AnchorGiven(anchor) then FindName(s, anchor.value).GetOr(0) else 0
  }

  /** `s` rotated left by `k`: what `k` rounds of `popleft`/`append` on a deque leave. */
  function RotateLeft<T>(s: seq<T>, k: nat): (r: seq<T>)
    requires k <= |s|
    ensures |r| == |s|
    ensures k < |s| ==> r[0] == s[k]
  {
    s[k..] + s[..k]
  }

  /** The color images in input order, sorted by hue metric then value. */
  function SortedColor(images: seq<Analyzed>): seq<Analyzed>
  {
    SortBy(Filter(images, IsColor), ColorKey)
  }

  /** The black-and-white images in input order, sorted by value. */
  function SortedBw(images: seq<Analyzed>): seq<Analyzed>
  {
    SortBy(Filter(images, IsBw), BwKey)
  }

  /** The color list `colorsort` returns: the sorted color list rotated to the anchor. */
  function ColorOut(images: seq<Analyzed>, anchor: Option<string>): seq<Analyzed>
  {
    var sorted := SortedColor(images);
    RotateLeft(sorted, AnchorIndex(sorted, anchor))
  }

  /**
   * `colorsort(image_reps, anchor_image)`.  Returns the combined list, the
   * color list and the black-and-white list, and `notFound` where the source
   * prints that the starting image was not found.
   */
  method Colorsort(images: seq<Analyzed>, anchor: Option<string>)
    returns (combined: seq<Analyzed>, color: seq<Analyzed>, bw: seq<Analyzed>, notFound: bool)
    ensures bw == SortedBw(images)
    ensures color == ColorOut(images, anchor)
    ensures combined == color + bw
    ensures notFound <==> AnchorGiven(anchor) && FindName(SortedColor(images), anchor.value).None?
    ensures multiset(combined) == multiset(images)
    ensures forall x :: x in bw ==> IsBw(x)
    ensures forall x :: x in color ==> !IsBw(x)
    ensures SortedBy(bw, BwKey)
    ensures AnchorGiven(anchor) && !notFound ==> |color| > 0 && color[0].name == anchor.value
    ensures !AnchorGiven(anchor) || notFound ==> color == SortedColor(images)
  {
    color, bw := Partition(images);
    color := SortBy(color, ColorKey);
    bw := SortBy(bw, BwKey);
    var start;
    start, notFound := FindStart(color, anchor);
    color := Rotate(color, start);
    combined := color + bw;

    ColorsortPermutation(images, anchor);
    SortBySorted(Filter(images, IsBw), BwKey);
    SortedBwMembers(images);
    ColorOutMembers(images, anchor);
    ColorOutAnchor(images, anchor);
  }

  /** The `for img in image_reps` loop: black-and-white images to `bw`, the rest to `color`. */
  method Partition(images: seq<Analyzed>) returns (color: seq<Analyzed>, bw: seq<Analyzed>)
    ensures color == Filter(images, IsColor)
    ensures bw == Filter(images, IsBw)
  {
    color, bw := [], [];
    for i := 0 to |images|
      invariant color == Filter(images[..i], IsColor)
      invariant bw == Filter(images[..i], IsBw)
    {
      var img := images[i];
      assert images[..i + 1] == images[..i] + [img];
      FilterAppend(images[..i], [img], IsColor);
      FilterAppend(images[..i], [img], IsBw);
      if IsBw(img) {
        bw := bw + [img];
      } else {
        color := color + [img];
      }
    }
    assert images[..|images|] == images;
  }

  /**
   * The anchor scan: advance while the current color image is not the
   * anchor; running off the end (the `IndexError` the source catches)
   * reports `notFound` and starts at 0.
   */
  method FindStart(color: seq<Analyzed>, anchor: Option<string>) returns (start: nat, notFound: bool)
    ensures start == AnchorIndex(color, anchor)
    ensures notFound <==> AnchorGiven(anchor) && FindName(color, anchor.value).None?
  {
    start := 0;
    notFound := false;
    if AnchorGiven(anchor) {
      while start < |color| && color[start].name != anchor.value
        invariant 0 <= start <= |color|
        invariant forall j :: 0 <= j < start ==> color[j].name != anchor.value
      {
        start := start + 1;
      }
      if start == |color| {
        notFound := true;
        start := 0;
      }
    }
  }

  /** `start` rounds of `color.append(color.popleft())` on a deque. */
  method Rotate(color: seq<Analyzed>, start: nat) returns (rotated: seq<Analyzed>)
    requires start == 0 || start < |color|
    ensures rotated == RotateLeft(color, start)
  {
    rotated := color;
    for i := 0 to start
      invariant rotated == RotateLeft(color, i)
    {
      RotateLeftStep(color, i);
      rotated := rotated[1..] + [rotated[0]];
    }
  }

  // ---------------------------------------------------------------------------
  // Rotation

  /** One `popleft`/`append` round advances the rotation by one. */
  lemma RotateLeftStep<T>(s: seq<T>, i: nat)
    requires i < |s|
    ensures |RotateLeft(s, i)| > 0
    ensures RotateLeft(s, i)[1..] + [RotateLeft(s, i)[0]] == RotateLeft(s, i + 1)
  {
    var r := RotateLeft(s, i);
    assert r[0] == s[i];
    assert r[1..] == s[i + 1..] + s[..i];
    assert s[..i + 1] == s[..i] + [s[i]];
  }

  /** Rotation is a cyclic shift: element i comes from position i + k, wrapping past the end. */
  lemma RotateLeftAt<T>(s: seq<T>, k: nat, i: nat)
    requires k <= |s| && i < |s|
    ensures RotateLeft(s, k)[i] == if i + k < |s| then s[i + k] else s[i + k - |s|]
  {
  }

  /** Rotation adds, drops and duplicates nothing. */
  lemma RotateLeftMultiset<T>(s: seq<T>, k: nat)
    requires k <= |s|
    ensures multiset(RotateLeft(s, k)) == multiset(s)
  {
    assert s == s[..k] + s[k..];
  }

  /** Rotating by k and then by the rest of the length restores the original order. */
  lemma RotateLeftInverse<T>(s: seq<T>, k: nat)
    requires k <= |s|
    ensures RotateLeft(RotateLeft(s, k), |s| - k) == s
  {
    var r := RotateLeft(s, k);
    assert r[|s| - k..] == s[..k];
    assert r[..|s| - k] == s[k..];
    assert s == s[..k] + s[k..];
  }

  // ---------------------------------------------------------------------------
  // Properties of the result

  /**
   * Every image lands in exactly one of the two lists: in the
   * black-and-white list exactly when its dominant saturation is 0, with
   * multiplicities preserved.
   */
  lemma PartitionExact(images: seq<Analyzed>)
    ensures multiset(Filter(images, IsBw)) + multiset(Filter(images, IsColor)) == multiset(images)
    ensures forall x :: x in images ==> (x in Filter(images, IsBw) <==> DominantColor(x, true).c1 == 0)
    ensures forall x :: x in images ==> (x in Filter(images, IsColor) <==> DominantColor(x, true).c1 != 0)
  {
    FilterPartition(images, IsBw, IsColor);
    FilterMultiset(images, IsBw);
    FilterMultiset(images, IsColor);
    forall x | x in images
      ensures x in Filter(images, IsBw) <==> IsBw(x)
      ensures x in Filter(images, IsColor) <==> IsColor(x)
    {
      assert x in multiset(images);
      assert x in Filter(images, IsBw) <==> x in multiset(Filter(images, IsBw));
      assert x in Filter(images, IsColor) <==> x in multiset(Filter(images, IsColor));
    }
  }

  /**
   * The sorted color list is ordered by hue metric and then by value, is a
   * rearrangement of the color images, and keeps the input order of images
   * with equal keys.
   */
  lemma SortedColorCorrect(images: seq<Analyzed>)
    ensures forall i, j :: 0 <= i < j < |SortedColor(images)| ==>
      var a, b := SortedColor(images)[i], SortedColor(images)[j];
      SortMetric(a) < SortMetric(b) ||
      (SortMetric(a) == SortMetric(b) && DominantColor(a, true).c2 <= DominantColor(b, true).c2)
    ensures multiset(SortedColor(images)) == multiset(Filter(images, IsColor))
    ensures forall k :: WithKey(SortedColor(images), ColorKey, k) == WithKey(Filter(images, IsColor), ColorKey, k)
  {
    var s := SortedColor(images);
    SortByCorrect(Filter(images, IsColor), ColorKey);
    forall i, j | 0 <= i < j < |s|
      ensures SortMetric(s[i]) < SortMetric(s[j]) ||
        (SortMetric(s[i]) == SortMetric(s[j]) && DominantColor(s[i], true).c2 <= DominantColor(s[j], true).c2)
    {
      assert KeyLe(ColorKey(s[i]), ColorKey(s[j]));
    }
  }

  /**
   * The sorted black-and-white list is non-decreasing in value, is a
   * rearrangement of the black-and-white images, and is stable.
   */
  lemma SortedBwCorrect(images: seq<Analyzed>)
    ensures forall i, j :: 0 <= i < j < |SortedBw(images)| ==>
      DominantColor(SortedBw(images)[i], true).c2 <= DominantColor(SortedBw(images)[j], true).c2
    ensures multiset(SortedBw(images)) == multiset(Filter(images, IsBw))
    ensures forall k :: WithKey(SortedBw(images), BwKey, k) == WithKey(Filter(images, IsBw), BwKey, k)
  {
    var s := SortedBw(images);
    SortByCorrect(Filter(images, IsBw), BwKey);
    forall i, j | 0 <= i < j < |s|
      ensures DominantColor(s[i], true).c2 <= DominantColor(s[j], true).c2
    {
      assert KeyLe(BwKey(s[i]), BwKey(s[j]));
    }
  }

  /** With an anchor at first position k of the sorted colors, the output starts there. */
  lemma AnchorFound(images: seq<Analyzed>, anchor: Option<string>, k: nat)
    requires AnchorGiven(anchor)
    requires k < |SortedColor(images)| && SortedColor(images)[k].name == anchor.value
    requires forall j :: 0 <= j < k ==> SortedColor(images)[j].name != anchor.value
    ensures ColorOut(images, anchor) == SortedColor(images)[k..] + SortedColor(images)[..k]
    ensures ColorOut(images, anchor)[0] == SortedColor(images)[k]
  {
    var s := SortedColor(images);
    var r := FindName(s, anchor.value);
    assert r.Some?;
    assert r.value == k;
  }

  /** Without an anchor, or when no color image has its name, the order is unrotated. */
  lemma AnchorAbsent(images: seq<Analyzed>, anchor: Option<string>)
    requires !AnchorGiven(anchor) ||
      forall j :: 0 <= j < |SortedColor(images)| ==> SortedColor(images)[j].name != anchor.value
    ensures ColorOut(images, anchor) == SortedColor(images)
  {
    var s := SortedColor(images);
    if AnchorGiven(anchor) {
      assert FindName(s, anchor.value).None?;
    }
    assert s[0..] + s[..0] == s;
  }

  /** The combined list is a rearrangement of the input: nothing added, dropped or duplicated. */
  lemma ColorsortPermutation(images: seq<Analyzed>, anchor: Option<string>)
    ensures multiset(ColorOut(images, anchor) + SortedBw(images)) == multiset(images)
  {
    var sorted := SortedColor(images);
    RotateLeftMultiset(sorted, AnchorIndex(sorted, anchor));
    SortByMultiset(Filter(images, IsColor), ColorKey);
    SortByMultiset(Filter(images, IsBw), BwKey);
    FilterPartition(images, IsBw, IsColor);
  }

  /** Every image in the sorted black-and-white list is black and white. */
  lemma SortedBwMembers(images: seq<Analyzed>)
    ensures forall x :: x in SortedBw(images) ==> IsBw(x)
  {
    var f := Filter(images, IsBw);
    SortByMultiset(f, BwKey);
    FilterElements(images, IsBw);
    forall x | x in SortedBw(images) ensures IsBw(x) {
      assert x in multiset(SortedBw(images));
      assert x in multiset(f);
      assert x in f;
    }
  }

  /** Every image in the returned color list has a non-zero dominant saturation. */
  lemma ColorOutMembers(images: seq<Analyzed>, anchor: Option<string>)
    ensures forall x :: x in ColorOut(images, anchor) ==> !IsBw(x)
  {
    var f := Filter(images, IsColor);
    var sorted := SortedColor(images);
    SortByMultiset(f, ColorKey);
    RotateLeftMultiset(sorted, AnchorIndex(sorted, anchor));
    FilterElements(images, IsColor);
    forall x | x in ColorOut(images, anchor) ensures !IsBw(x) {
      assert x in multiset(ColorOut(images, anchor));
      assert x in multiset(sorted);
      assert x in multiset(f);
      assert x in f;
    }
  }

  /** The returned color list starts at the anchor when it is found, and is unrotated otherwise. */
  lemma ColorOutAnchor(images: seq<Analyzed>, anchor: Option<string>)
    ensures AnchorGiven(anchor) && FindName(SortedColor(images), anchor.value).Some? ==>
      |ColorOut(images, anchor)| > 0 && ColorOut(images, anchor)[0].name == anchor.value
    ensures !AnchorGiven(anchor) || FindName(SortedColor(images), anchor.value).None? ==>
      ColorOut(images, anchor) == SortedColor(images)
  {
    var sorted := SortedColor(images);
    if AnchorGiven(anchor) && FindName(sorted, anchor.value).Some? {
      AnchorFound(images, anchor, FindName(sorted, anchor.value).value);
    } else {
      AnchorAbsent(images, anchor);
    }
  }

  // ---------------------------------------------------------------------------
  // Sorting an already sorted and rotated collection

  /**
   * Sorting a color collection that is already sorted and rotated to an
   * anchor, with that anchor, gives it back unchanged, provided no two
   * images share a sort key and no two share a name.
   */
  lemma ColorsortIdempotent(sorted: seq<Analyzed>, k: nat)
    requires k < |sorted| && sorted[k].name != ""
    requires forall i :: 0 <= i < |sorted| ==> !IsBw(sorted[i])
    requires SortedBy(sorted, ColorKey) && DistinctKeys(sorted, ColorKey)
    requires forall i, j :: 0 <= i < j < |sorted| ==> sorted[i].name != sorted[j].name
    ensures ColorOut(RotateLeft(sorted, k), Some(sorted[k].name)) == RotateLeft(sorted, k)
    ensures SortedBw(RotateLeft(sorted, k)) == []
  {
    var images := RotateLeft(sorted, k);
    forall i | 0 <= i < |images| ensures IsColor(images[i]) && !IsBw(images[i]) {
      RotateLeftAt(sorted, k, i);
    }
    FilterAll(images, IsColor);
    FilterNone(images, IsBw);
    RotateLeftMultiset(sorted, k);
    SortByPermutationOfSorted(sorted, images, ColorKey);
    assert SortedColor(images) == sorted;
    var r := FindName(sorted, sorted[k].name);
    assert r.Some?;
    assert r.value == k;
  }

  /** Three color images; "b" and "c" share a sort key. */
  function TiedImages(): seq<Analyzed>
  {
    [ImageData("a", HueDist, Horizontal, 1, [Triple(0, 1, 5)], [Triple(0, 1, 5)]),
     ImageData("b", HueDist, Horizontal, 1, [Triple(10, 1, 5)], [Triple(10, 1, 5)]),
     ImageData("c", HueDist, Horizontal, 1, [Triple(10, 1, 5)], [Triple(10, 1, 5)])]
  }

  /**
   * Without distinct keys, sorting the sorted and rotated output again moves
   * images: stability keeps the rotated order of "c" before "b".
   */
  lemma TiedKeysNotIdempotent()
    ensures ColorOut(TiedImages(), Some("c")) == [TiedImages()[2], TiedImages()[0], TiedImages()[1]]
    ensures ColorOut(ColorOut(TiedImages(), Some("c")), Some("c"))
         == [TiedImages()[2], TiedImages()[1], TiedImages()[0]]
  {
    var s := TiedImages();
    var a, b, c := s[0], s[1], s[2];
    assert ColorKey(a) == Key(90, 5);
    assert ColorKey(b) == Key(100, 5) && ColorKey(c) == Key(100, 5);
    assert Filter(s, IsColor) == s by {
      FilterAll(s, IsColor);
    }
    assert SortBy([c], ColorKey) == [c];
    assert SortBy([b, c], ColorKey) == [b, c];
    assert SortBy(s, ColorKey) == [a, b, c];
    assert FindName([a, b, c], "c") == Some(2);
    var once := [c, a, b];
    assert ColorOut(s, Some("c")) == once;
    assert Filter(once, IsColor) == once by {
      FilterAll(once, IsColor);
    }
    assert SortBy([b], ColorKey) == [b];
    assert SortBy([a, b], ColorKey) == [a, b];
    assert SortBy(once, ColorKey) == [a, c, b];
    assert FindName([a, c, b], "c") == Some(1);
  }
}

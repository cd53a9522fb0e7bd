/**
 * The selection step of the hue-distance strategy
 * (`get_dominant_colors_hue_dist`): rank the hue buckets by population,
 * take the first `n`, and reduce each to its hue and the medians of its
 * saturation and value channels.
 *
 * The bucket dictionary built by the hue-distribution heuristic arrives as a
 * sequence of (hue, pixels) pairs in the dictionary's iteration order.
 * Rounding the median to an integer is the parameter `round`.
 */
module HueDistance {
  import opened Wrappers
  import opened Sorting
  import opened AnalyzedImage

  /** All HSV pixels observed at one hue. */
  datatype Bucket = Bucket(hue: int, pixels: seq<Triple>)

  /**
   * `sorted(..., key=len, reverse=True)` is stable, so it orders exactly as
   * an ascending stable sort on the negated population.
   */
  function PopulationKey(b: Bucket): Key
  {
    Key(-|b.pixels|, 0)
  }

  /** The buckets, most populous first, ties in dictionary order. */
  function Ranked(hueDist: seq<Bucket>): (r: seq<Bucket>)
    ensures |r| == |hueDist|
  {
    SortBy(hueDist, PopulationKey)
  }

  /** Ranking is a stable reordering by descending population. */
  lemma RankedCorrect(hueDist: seq<Bucket>)
    ensures forall i, j :: 0 <= i < j < |Ranked(hueDist)| ==>
      |Ranked(hueDist)[i].pixels| >= |Ranked(hueDist)[j].pixels|
    ensures multiset(Ranked(hueDist)) == multiset(hueDist)
    ensures forall k :: WithKey(Ranked(hueDist), PopulationKey, k) == WithKey(hueDist, PopulationKey, k)
  {
    SortByCorrect(hueDist, PopulationKey);
    var r := Ranked(hueDist);
    forall i, j | 0 <= i < j < |r| ensures |r[i].pixels| >= |r[j].pixels| {
      assert KeyLe(PopulationKey(r[i]), PopulationKey(r[j]));
    }
  }

  function Saturations(pixels: seq<Triple>): (r: seq<int>)
    ensures |r| == |pixels|
    ensures forall i :: 0 <= i < |pixels| ==> r[i] == pixels[i].c1
  {
    seq(|pixels|, i requires 0 <= i < |pixels| => pixels[i].c1)
  }

  function Values(pixels: seq<Triple>): (r: seq<int>)
    ensures |r| == |pixels|
    ensures forall i :: 0 <= i < |pixels| ==> r[i] == pixels[i].c2
  {
    seq(|pixels|, i requires 0 <= i < |pixels| => pixels[i].c2)
  }

  function IntKey(x: int): Key
  {
    Key(x, 0)
  }

  /**
   * `np.median`: the middle element of the sorted values, or the mean of
   * the two middle elements when there is an even number of them.
   */
  function Median(xs: seq<int>): real
    requires |xs| > 0
  {
    var s := SortBy(xs, IntKey);
    var m := |s| / 2;
    if |s| % 2 == 1 then s[m] as real
    else (s[m - 1] + s[m]) as real / 2.0
  }

  /** The median lies between any bounds of the values. */
  lemma MedianBounds(xs: seq<int>, lo: int, hi: int)
    requires |xs| > 0
    requires forall i :: 0 <= i < |xs| ==> lo <= xs[i] <= hi
    ensures lo as real <= Median(xs) <= hi as real
  {
    var s := SortBy(xs, IntKey);
    SortByMultiset(xs, IntKey);
    forall i | 0 <= i < |s| ensures lo <= s[i] <= hi {
      assert s[i] in multiset(xs);
      var j :| 0 <= j < |xs| && xs[j] == s[i];
    }
  }

  /** Values that are all equal have that value as their median. */
  lemma MedianConstant(xs: seq<int>, v: int)
    requires |xs| > 0
    requires forall i :: 0 <= i < |xs| ==> xs[i] == v
    ensures Median(xs) == v as real
  {
    MedianBounds(xs, v, v);
  }

  /** The median lies between the two middle sorted values, `SortBy(xs)[(|xs| - 1) / 2]` and `SortBy(xs)[|xs| / 2]`. */
  lemma MedianIsMiddle(xs: seq<int>)
    requires |xs| > 0
    ensures SortBy(xs, IntKey)[(|xs| - 1) / 2] as real <= Median(xs) <= SortBy(xs, IntKey)[|xs| / 2] as real
  {
    var s := SortBy(xs, IntKey);
    var m := |s| / 2;
    if |s| % 2 == 0 {
      assert (|xs| - 1) / 2 == m - 1;
      assert KeyLe(IntKey(s[m - 1]), IntKey(s[m])) by {
        SortBySorted(xs, IntKey);
      }
      MeanBetween(s[m - 1], s[m]);
    } else {
      assert (|xs| - 1) / 2 == m;
    }
  }

  lemma MeanBetween(a: int, b: int)
    requires a <= b
    ensures a as real <= (a + b) as real / 2.0 <= b as real
  {
  }

  /**
   * The entry a ranked bucket contributes: its hue with the rounded medians
   * of its saturation and value channels, or saturation and value 0 when it
   * holds no pixels.
   */
  function Entry(b: Bucket, round: real -> int): (t: Triple)
    ensures t.c0 == b.hue
    ensures |b.pixels| == 0 ==> t.c1 == 0 && t.c2 == 0
  {
    if |b.pixels| > 0 then
      Triple(b.hue, round(Median(Saturations(b.pixels))), round(Median(Values(b.pixels))))
    else Triple(b.hue, 0, 0)
  }

  /**
   * The loop of `get_dominant_colors_hue_dist` before normalisation:
   * `for i in range(n)` appends the entry of the i-th ranked bucket, and
   * raises `IndexError` at `i == |hueDist|` when `n` exceeds the number of
   * buckets.
   */
  method SelectHueDist(hueDist: seq<Bucket>, n: int, round: real -> int)
    returns (r: Result<seq<Triple>>)
    ensures r.IndexError? <==> n > |hueDist|
    ensures r.IndexError? ==> r.index == |hueDist|
    ensures r.Ok? ==> |r.value| == (if n < 0 then 0 else n)
    ensures r.Ok? ==> forall i :: 0 <= i < |r.value| ==> r.value[i] == Entry(Ranked(hueDist)[i], round)
  {
    var ranked: seq<Bucket> := Ranked(hueDist);
    var colors: seq<Triple> := [];
    var i := 0;
    while i < n
      invariant 0 <= i <= |ranked|
      invariant n >= 0 ==> i <= n
      invariant n < 0 ==> i == 0
      invariant |colors| == i
      invariant forall j :: 0 <= j < i ==> colors[j] == Entry(ranked[j], round)
    {
      if i >= |ranked| {
        r := IndexError(i);
        return;
      }
      colors := colors + [Entry(ranked[i], round)];
      i := i + 1;
    }
    r := Ok(colors);
  }

  /** The hues selected are those of the n most populous buckets, in rank order. */
  lemma SelectedHuesRanked(hueDist: seq<Bucket>, i: int, j: int, round: real -> int)
    requires 0 <= i < j < |hueDist|
    ensures Entry(Ranked(hueDist)[i], round).c0 == Ranked(hueDist)[i].hue
    ensures |Ranked(hueDist)[i].pixels| >= |Ranked(hueDist)[j].pixels|
  {
    RankedCorrect(hueDist);
  }

  /** A single populated hue whose pixels share saturation and value is returned unchanged. */
  lemma SingleHue(hue: int, pixels: seq<Triple>, sat: int, val: int, round: real -> int)
    requires |pixels| > 0
    requires forall i :: 0 <= i < |pixels| ==> pixels[i] == Triple(hue, sat, val)
    requires round(sat as real) == sat && round(val as real) == val
    ensures Entry(Ranked([Bucket(hue, pixels)])[0], round) == Triple(hue, sat, val)
  {
    assert Ranked([Bucket(hue, pixels)]) == [Bucket(hue, pixels)];
    MedianConstant(Saturations(pixels), sat);
    MedianConstant(Values(pixels), val);
  }
}

/**
 * An analyzed image: the record the analysis leaves behind once an image has
 * been decoded, resized and reduced to its dominant colors, and the pure
 * queries on it (`get_dominant_color`, `is_bw`, `get_sort_metric`,
 * `generate_filename`), together with the two small decisions taken while
 * constructing it (orientation and the number of colors).
 */
module AnalyzedImage {
  import opened Wrappers
  import opened Decimal

  /**
   * Three integer channels: (hue, saturation, value) for an HSV color,
   * (red, green, blue) for an RGB color, indexed 0, 1, 2 as in the source.
   */
  datatype Triple = Triple(c0: int, c1: int, c2: int)

  datatype Orientation = Horizontal | Vertical

  datatype Algorithm = HueDist | KMeans

  /**
   * The fields of an analyzed image the core reads.  `name` is the file
   * name of the image path; the two color sequences hold the dominant colors,
   * most dominant first, in RGB and HSV form.
   */
  datatype ImageData = ImageData(
    name: string,
    algorithm: Algorithm,
    orientation: Orientation,
    nColors: int,
    dominantRgb: seq<Triple>,
    dominantHsv: seq<Triple>)

  /** An analyzed image has at least one dominant color, given in both spaces. */
  type Analyzed = d: ImageData | |d.dominantRgb| == |d.dominantHsv| > 0
    witness ImageData("", HueDist, Horizontal, 1, [Triple(0, 0, 0)], [Triple(0, 0, 0)])

  /** Orientation from the original dimensions: vertical exactly when taller than wide. */
  function OrientationOf(width: int, height: int): (o: Orientation)
    ensures o == Vertical <==> height > width
  {
    if height > width then Vertical else Horizontal
  }

  /** Exchanging width and height of a non-square image flips its orientation. */
  lemma OrientationTranspose(width: int, height: int)
    requires width != height
    ensures OrientationOf(width, height) != OrientationOf(height, width)
  {
  }

  /**
   * The number of colors to find: the heuristic's answer when the caller
   * passed None or 0, and the caller's number otherwise.
   */
  function ChooseNColors(requested: Option<int>, heuristic: int): (n: int)
    ensures requested == None || requested == Some(0) ==> n == heuristic
    ensures requested.Some? && requested.value != 0 ==> n == requested.value
  {
    match requested
    case None => heuristic
    case Some(k) => if k == 0 then heuristic else k
  }

  /**
   * The fields the constructor of an analyzed image sets: the path's name,
   * the algorithm, the orientation of the original `width` by `height`
   * image, and the color count chosen from the caller's `requested` number
   * and the heuristic's answer.  The dominant colors are computed by code
   * outside this model and arrive as `rgb` and `hsv`.
   */
  function NewImage(name: string, algorithm: Algorithm, width: int, height: int,
                    requested: Option<int>, heuristic: int,
                    rgb: seq<Triple>, hsv: seq<Triple>): (r: ImageData)
    ensures r.name == name && r.algorithm == algorithm
    ensures r.orientation == OrientationOf(width, height)
    ensures r.nColors == ChooseNColors(requested, heuristic)
    ensures r.dominantRgb == rgb && r.dominantHsv == hsv
  {
    ImageData(name, algorithm, OrientationOf(width, height),
              ChooseNColors(requested, heuristic), rgb, hsv)
  }

  /** A non-negative request and a positive heuristic always give at least one color. */
  lemma ChooseNColorsPositive(requested: Option<int>, heuristic: int)
    requires heuristic >= 1
    requires requested.Some? ==> requested.value >= 0
    ensures ChooseNColors(requested, heuristic) >= 1
  {
  }

  /** `get_dominant_colors`: the HSV or the RGB sequence, which have the same length. */
  function DominantColors(im: Analyzed, hsv: bool): (cs: seq<Triple>)
    ensures |cs| == |im.dominantHsv| == |im.dominantRgb| > 0
  {
    if hsv then im.dominantHsv else im.dominantRgb
  }

  /** `get_dominant_color`: the most dominant color, entry 0 of the chosen space. */
  function DominantColor(im: Analyzed, hsv: bool): (c: Triple)
    ensures c == DominantColors(im, hsv)[0]
    ensures c in DominantColors(im, hsv)
  {
    if hsv then im.dominantHsv[0] else im.dominantRgb[0]
  }

  /** `is_bw`: black and white exactly when the dominant HSV saturation is 0. */
  function IsBw(im: Analyzed): (b: bool)
    ensures b <==> DominantColor(im, true).c1 == 0
  {
    im.dominantHsv[0].c1 == 0
  }

  /** The complement of `IsBw`: the images sorted by hue. */
  function IsColor(im: Analyzed): (b: bool)
    ensures b <==> !IsBw(im)
  {
    im.dominantHsv[0].c1 != 0
  }

  /**
   * The hue rotated by 90 degrees, modulo 360.  Python's `%` by a positive
   * divisor is never negative, like Dafny's, so the result lies in [0, 360)
   * and differs from `hue + 90` by a multiple of 360.
   */
  function HueMetric(hue: int): (m: int)
    ensures 0 <= m < 360
    ensures (m - (hue + 90)) % 360 == 0
  {
    (hue + 90) % 360
  }

  /** On the hue circle [0, 360) the metric turns every hue by 90 degrees. */
  lemma HueMetricOnCircle(hue: int)
    requires 0 <= hue < 360
    ensures HueMetric(hue) == if hue < 270 then hue + 90 else hue - 270
  {
  }

  /** The rotation is one-to-one on [0, 360): no two hues share a metric. */
  lemma HueMetricInjective(h1: int, h2: int)
    requires 0 <= h1 < 360 && 0 <= h2 < 360
    requires HueMetric(h1) == HueMetric(h2)
    ensures h1 == h2
  {
    HueMetricOnCircle(h1);
    HueMetricOnCircle(h2);
  }

  /** `get_sort_metric`: the rotated hue of the dominant HSV color. */
  function SortMetric(im: Analyzed): (m: int)
    ensures 0 <= m < 360
    ensures (m - (DominantColor(im, true).c0 + 90)) % 360 == 0
  {
    HueMetric(im.dominantHsv[0].c0)
  }

  // ---------------------------------------------------------------------------
  // generate_filename

  /** `"{index}_"`, or nothing when no index is given. */
  function IndexPrefix(index: Option<int>): string
  {
    match index
    case None => ""
    case Some(i) => IntToString(i) + "_"
  }

  /** `_{tag}{value}`, one field of the generated filename. */
  function FieldText(tag: string, value: int): string
  {
    "_" + tag + IntToString(value)
  }

  /**
   * `generate_filename`: the optional index prefix, the base, then the first
   * dominant HSV triple and the color count, each as a tagged field, and the
   * `.jpg` extension.
   */
  function GenerateFilename(im: Analyzed, index: Option<int>, base: string): (f: string)
  {
    var c := DominantColor(im, true);
    IndexPrefix(index) + base
      + FieldText("hue=", c.c0) + FieldText("sat=", c.c1) + FieldText("val=", c.c2)
      + FieldText("n=", im.nColors) + ".jpg"
  }

  /** The fields a generated filename is read back into. */
  datatype FilenameParts = FilenameParts(stem: string, hue: int, sat: int, val: int, n: int)

  /** Splits `s` at its last occurrence of `c`. */
  function SplitLast(s: string, c: char): Option<(string, string)>
  {
    if |s| == 0 then None
    else if s[|s| - 1] == c then Some((s[..|s| - 1], ""))
    else
      match SplitLast(s[..|s| - 1], c)
      case None => None
      case Some(parts) => Some((parts.0, parts.1 + [s[|s| - 1]]))
  }

  lemma {:induction false} SplitLastAt(x: string, c: char, y: string)
    requires c !in y
    ensures SplitLast(x + [c] + y, c) == Some((x, y))
  {
    var s := x + [c] + y;
    if |y| > 0 {
      var y' := y[..|y| - 1];
      assert s[..|s| - 1] == x + [c] + y';
      assert s[|s| - 1] == y[|y| - 1];
      SplitLastAt(x, c, y');
      assert y' + [y[|y| - 1]] == y;
    } else {
      assert s[..|s| - 1] == x;
    }
  }

  /** Reads the last field `_{tag}{value}` of `s`: what precedes it and its value. */
  function ReadField(s: string, tag: string): Option<(string, int)>
  {
    var parts :- SplitLast(s, '_');
    var field := parts.1;
    if |field| >= |tag| && field[..|tag|] == tag then
      var v :- ParseInt(field[|tag|..]);
      Some((parts.0, v))
    else None
  }

  lemma ReadFieldText(x: string, tag: string, value: int)
    requires '_' !in tag
    ensures ReadField(x + FieldText(tag, value), tag) == Some((x, value))
  {
    var y := tag + IntToString(value);
    assert x + FieldText(tag, value) == x + ['_'] + y;
    SplitLastAt(x, '_', y);
    assert y[..|tag|] == tag && y[|tag|..] == IntToString(value);
    IntToStringRoundTrip(value);
  }

  /** Reads a generated filename back into its stem and its four numbers. */
  function ParseFilename(f: string): Option<FilenameParts>
  {
    if |f| < 4 || f[|f| - 4..] != ".jpg" then None
    else
      var n :- ReadField(f[..|f| - 4], "n=");
      var v :- ReadField(n.0, "val=");
      var s :- ReadField(v.0, "sat=");
      var h :- ReadField(s.0, "hue=");
      Some(FilenameParts(h.0, h.1, s.1, v.1, n.1))
  }

  /**
   * The generated filename encodes exactly the index prefix and base (as its
   * stem), the dominant hue, saturation and value, and the color count.
   */
  lemma GenerateFilenameRoundTrip(im: Analyzed, index: Option<int>, base: string)
    ensures ParseFilename(GenerateFilename(im, index, base))
         == Some(FilenameParts(IndexPrefix(index) + base, DominantColor(im, true).c0,
                               DominantColor(im, true).c1, DominantColor(im, true).c2, im.nColors))
  {
    var c := DominantColor(im, true);
    var stem := IndexPrefix(index) + base;
    var a := stem + FieldText("hue=", c.c0);
    var b := a + FieldText("sat=", c.c1);
    var d := b + FieldText("val=", c.c2);
    var e := d + FieldText("n=", im.nColors);
    var f := GenerateFilename(im, index, base);
    assert f == e + ".jpg";
    assert f[|f| - 4..] == ".jpg" && f[..|f| - 4] == e;
    ReadFieldText(d, "n=", im.nColors);
    ReadFieldText(b, "val=", c.c2);
    ReadFieldText(a, "sat=", c.c1);
    ReadFieldText(stem, "hue=", c.c0);
  }
}

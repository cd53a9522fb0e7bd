# colorsort core in Dafny

This project models the core of `colorsort/analyzed_image.py`, the part of
colorsort that orders a collection of analyzed images by hue.

- **Collection sorter** (`AnalyzedImage.colorsort`). It splits the images into
  color and black-and-white lists by dominant saturation. It stable-sorts the
  color list by (sort metric, dominant value) and the black-and-white list by
  dominant value. It finds an optional anchor image by name and rotates the
  color list so the anchor comes first, as the source's deque loop does. It
  returns the color list followed by the black-and-white list, the color list
  (the code returns it as a `deque`) and the black-and-white list. The method and its three loops are imperative Dafny (`colorsort.dfy`).
- **Queries on an analyzed image** (`analyzed_image.dfy`): the dominant
  color(s), `is_bw`, `get_sort_metric`, `generate_filename`, the orientation
  test and the choice of `n_colors` made while constructing an image.
- **Selection step of the hue-distance strategy** (`hue_dist.dfy`). Buckets
  are ranked by population, most populous first, with a stable sort. The first
  `n` are taken. Each becomes `[hue, median(sat), median(val)]`, or
  `[hue, 0, 0]` if empty. It raises `IndexError` when `n` exceeds the number of
  buckets.

Supporting modules:

- `sorting.dfy` gives the meaning of Python's stable `list.sort`/`sorted` with
  a key. `SortBy` is the reference insertion sort. `SortedStableUnique` shows
  that any sorted, order-preserving rearrangement equals it, so the choice of
  sort algorithm does not matter.
- `decimal.dfy` is Python's `str` of an int.
- `wrappers.dfy` holds `Option` and `Result`.

An analyzed image is a datatype value. It does not change after construction;
the clustering side artifacts are not modelled. Its type demands at least one
dominant color, with the RGB and HSV lists of equal length.

Sort keys are pairs of integers compared lexicographically, like Python
tuples. The black-and-white key is `(value, 0)`. The bucket key is
`(-population, 0)`: `sorted(..., reverse=True)` is stable, so it orders exactly
like an ascending stable sort on the negated length.

Inputs that come from code outside this model become parameters:

- the bucket dictionary of `compute_hue_dist` is a sequence of (hue, pixels)
  pairs, in dictionary order;
- the result of the `get_n_heuristic` heuristic is an integer;
- `util.round_to_int` is a function `round: real -> int`;
- an image's name stands for `image_path.name`.

`np.median` is modelled exactly over reals: the middle value, or the mean of
the two middle values.

Edge cases of the code, as the model keeps them:

- Any non-zero requested `n_colors` is used as given, negative values too
  (lines 66-70).
- Hue-distance selection with more colors than buckets raises `IndexError`
  at `hue_dist[i]` (line 100); nothing clamps the count.
- Re-sorting an already sorted and rotated color list with its first image as
  anchor gives it back when sort keys and names are distinct
  (`ImageSorting.ColorsortIdempotent`). With tied keys it can change order
  (`ImageSorting.TiedKeysNotIdempotent`), because the stable sort keeps the
  rotated order of tied images.

## Model

| member | source | states |
|---|---|---|
| `ImageSorting.Colorsort` | colorsort/analyzed_image.py:263-314 | bw list is the stably sorted black-and-white images; color list is the stably sorted color images rotated to the anchor; combined is color followed by bw; not-found flag exactly when a non-empty anchor names no color image; combined is a permutation of the input; lists hold only their kind; bw is sorted by value; anchor first when found, unrotated otherwise |
| `ImageSorting.Partition` | colorsort/analyzed_image.py:279-285 | the loop's color and bw lists are exactly the non-bw and bw images in input order |
| `ImageSorting.FindStart` | colorsort/analyzed_image.py:298-305 | the while scan stops at the anchor's first position; running off the end (the caught `IndexError`) or no anchor gives 0; not-found is reported exactly when a non-empty anchor matches no image |
| `ImageSorting.Rotate` | colorsort/analyzed_image.py:307-309 | `start` rounds of `popleft`/`append` leave the list rotated left by `start` |
| `ImageSorting.FindName` | colorsort/analyzed_image.py:300-302 | the result is the first position whose name matches, or none when no position matches |
| `ImageSorting.AnchorIndex` | colorsort/analyzed_image.py:298-305 | the starting index is 0 or a valid position |
| `ImageSorting.AnchorGiven` | colorsort/analyzed_image.py:299 | no contract of its own: Python's truth test on the anchor, false for None and for the empty string; `AnchorFound` and `AnchorAbsent` state what it decides |
| `ImageSorting.SortedColor` | colorsort/analyzed_image.py:288-293 | no contract of its own: the color images in input order, stably sorted by (hue metric, value); `SortedColorCorrect` states its order, permutation and stability |
| `ImageSorting.SortedBw` | colorsort/analyzed_image.py:294-296 | no contract of its own: the black-and-white images in input order, stably sorted by value; `SortedBwCorrect` states its order, permutation and stability |
| `ImageSorting.ColorOut` | colorsort/analyzed_image.py:288-309 | no contract of its own: the color list `colorsort` returns; `ColorOutMembers`, `ColorOutAnchor` and `ColorsortPermutation` state its contents and its first image |
| `ImageSorting.ColorKey` | colorsort/analyzed_image.py:288-293 | the color sort key is (sort metric, dominant HSV value) |
| `ImageSorting.BwKey` | colorsort/analyzed_image.py:296 | the black-and-white sort key is the dominant HSV value |
| `ImageSorting.PartitionExact` | colorsort/analyzed_image.py:279-285 | every image lands in exactly one list, with multiplicities kept; in bw iff its dominant saturation is 0 |
| `ImageSorting.SortedColorCorrect` | colorsort/analyzed_image.py:288-293 | sorted colors are lexicographically non-decreasing in (metric, value), a permutation of the color images, and stable for equal keys |
| `ImageSorting.SortedBwCorrect` | colorsort/analyzed_image.py:296 | sorted bw images are non-decreasing in value, a permutation of the bw images, and stable |
| `ImageSorting.AnchorFound` | colorsort/analyzed_image.py:298-309 | if k is the first position of the anchor in the sorted colors, the output is `sorted[k..] + sorted[..k]` and starts with the anchor |
| `ImageSorting.AnchorAbsent` | colorsort/analyzed_image.py:299-305 | with no anchor, an empty anchor, or no matching color image, the color output is the sorted list unrotated |
| `ImageSorting.ColorsortPermutation` | colorsort/analyzed_image.py:307-314 | color output followed by bw has exactly the multiset of the input images |
| `ImageSorting.SortedBwMembers` | colorsort/analyzed_image.py:281-283 | every image of the bw output is black and white |
| `ImageSorting.ColorOutMembers` | colorsort/analyzed_image.py:281-285 | every image of the color output has non-zero dominant saturation |
| `ImageSorting.ColorOutAnchor` | colorsort/analyzed_image.py:298-309 | a found anchor is the first color image; otherwise the color list is unrotated |
| `ImageSorting.RotateLeftStep` | colorsort/analyzed_image.py:308-309 | one `popleft`/`append` round advances the rotation by one |
| `ImageSorting.RotateLeft` | colorsort/analyzed_image.py:307-309 | rotation keeps the length and, below the length, brings element `k` to the front; `RotateLeftMultiset` and `RotateLeftInverse` state the rest |
| `ImageSorting.RotateLeftAt` | colorsort/analyzed_image.py:307-309 | the rotation is a cyclic shift: position i holds element i + k, wrapping past the end |
| `ImageSorting.RotateLeftMultiset` | colorsort/analyzed_image.py:307-309 | rotation adds, drops and duplicates nothing |
| `ImageSorting.RotateLeftInverse` | colorsort/analyzed_image.py:307-309 | rotating by k, then by length minus k, restores the original order |
| `Sorting.FilterAll` | colorsort/analyzed_image.py:279-285 | when every image is a color image the color list is the whole input |
| `ImageSorting.ColorsortIdempotent` | colorsort/analyzed_image.py:288-309 | with distinct keys and names, sorting a sorted, rotated color list with its first image as anchor returns it unchanged, with no bw images |
| `ImageSorting.TiedKeysNotIdempotent` | colorsort/analyzed_image.py:288-309 | for three images with two tied keys, sorting the output again with the same anchor gives a different order |
| `AnalyzedImage.OrientationOf` | colorsort/analyzed_image.py:52-58 | vertical exactly when the original height exceeds the width, horizontal otherwise |
| `AnalyzedImage.OrientationTranspose` | colorsort/analyzed_image.py:53-58 | swapping width and height of a non-square image flips the orientation |
| `AnalyzedImage.ChooseNColors` | colorsort/analyzed_image.py:66-70 | the heuristic's result when the request is None or 0, the request otherwise |
| `AnalyzedImage.ChooseNColorsPositive` | colorsort/analyzed_image.py:66-70 | a positive heuristic and a non-negative request give at least one color |
| `AnalyzedImage.NewImage` | colorsort/analyzed_image.py:47-70 | the constructed record carries the path name and algorithm, the orientation `OrientationOf` gives for the original size, the color count `ChooseNColors` gives, and the dominant colors as computed |
| `AnalyzedImage.DominantColors` | colorsort/analyzed_image.py:146-158 | both color spaces' lists are non-empty and of equal length |
| `AnalyzedImage.DominantColor` | colorsort/analyzed_image.py:160-169 | the most dominant color is entry 0 of the chosen space's list |
| `AnalyzedImage.IsBw` | colorsort/analyzed_image.py:179-188 | black and white exactly when the dominant HSV saturation is 0 |
| `AnalyzedImage.IsColor` | colorsort/analyzed_image.py:282-285 | a color image is exactly one that is not black and white |
| `AnalyzedImage.HueMetric` | colorsort/analyzed_image.py:259 | the metric lies in [0, 360) and is congruent to hue + 90 modulo 360 |
| `AnalyzedImage.HueMetricOnCircle` | colorsort/analyzed_image.py:258-260 | on [0, 360) the metric is hue + 90 below 270 and hue - 270 from 270 on |
| `AnalyzedImage.HueMetricInjective` | colorsort/analyzed_image.py:258-260 | distinct hues in [0, 360) have distinct metrics |
| `AnalyzedImage.SortMetric` | colorsort/analyzed_image.py:248-260 | the image's metric lies in [0, 360) and is its dominant hue plus 90, modulo 360 |
| `AnalyzedImage.SplitLastAt` | colorsort/analyzed_image.py:234 | splitting at the last underscore recovers a field that contains none |
| `AnalyzedImage.ReadFieldText` | colorsort/analyzed_image.py:234 | a `_{tag}{value}` field is read back to what precedes it and its value |
| `AnalyzedImage.GenerateFilenameRoundTrip` | colorsort/analyzed_image.py:227-235 | the filename reads back to the stem (`"{index}_"` or nothing, then the base) and the dominant hue, saturation, value and color count |
| `AnalyzedImage.GenerateFilename` | colorsort/analyzed_image.py:227-235 | no contract of its own: the index prefix, base and tagged hue, sat, val and n fields with `.jpg`; `GenerateFilenameRoundTrip` states that a parser recovers every field |
| `Decimal.IntToString` | colorsort/analyzed_image.py:228 | `str` of an int is non-empty and contains no underscore |
| `Decimal.NatToString` | colorsort/analyzed_image.py:228 | decimal digits, non-empty, no leading zero |
| `Decimal.IntToStringRoundTrip` | colorsort/analyzed_image.py:234 | reading the decimal text back gives the integer |
| `Decimal.IntToStringInjective` | colorsort/analyzed_image.py:234 | distinct integers are written differently |
| `HueDistance.SelectHueDist` | colorsort/analyzed_image.py:93-110 | `IndexError` at the index equal to the bucket count exactly when n exceeds that count; otherwise max(n, 0) entries, entry i from the i-th ranked bucket |
| `HueDistance.Ranked` | colorsort/analyzed_image.py:94-96 | ranking keeps the number of buckets |
| `HueDistance.PopulationKey` | colorsort/analyzed_image.py:95 | no contract of its own: the negated bucket population, so an ascending stable sort orders as `key=len, reverse=True`; `RankedCorrect` states the resulting order |
| `HueDistance.RankedCorrect` | colorsort/analyzed_image.py:94-96 | ranked buckets are non-increasing in population, a permutation of the buckets, and stable for equal populations |
| `HueDistance.Entry` | colorsort/analyzed_image.py:100-110 | an entry carries its bucket's hue; an empty bucket gives saturation and value 0 |
| `HueDistance.Saturations` | colorsort/analyzed_image.py:103 | the saturation channel of each pixel, in order |
| `HueDistance.Values` | colorsort/analyzed_image.py:104 | the value channel of each pixel, in order |
| `HueDistance.MedianBounds` | colorsort/analyzed_image.py:103-104 | the median lies within any bounds of the values |
| `HueDistance.MedianConstant` | colorsort/analyzed_image.py:103-104 | equal values have that value as median |
| `HueDistance.MedianIsMiddle` | colorsort/analyzed_image.py:103-104 | the median lies between the two middle sorted values |
| `HueDistance.Median` | colorsort/analyzed_image.py:103-104 | no contract of its own: `np.median` over reals; `MedianBounds`, `MedianConstant` and `MedianIsMiddle` state where it lies |
| `HueDistance.SelectedHuesRanked` | colorsort/analyzed_image.py:99-101 | selected hues are those of the ranked buckets, more populous first |
| `HueDistance.SingleHue` | colorsort/analyzed_image.py:99-110 | one bucket whose pixels all share a saturation and value yields that hue, saturation and value |
| `Sorting.SortByCorrect` | colorsort/analyzed_image.py:288-296 | the sort result is ordered by key, a permutation, and stable |
| `Sorting.SortedStableUnique` | colorsort/analyzed_image.py:288-296 | two sorted sequences with the same elements in the same order per key are equal |
| `Sorting.SortByCharacterized` | colorsort/analyzed_image.py:288-296 | any sorted, stable rearrangement of the input is the sort result |
| `Sorting.SortBySortedIdentity` | colorsort/analyzed_image.py:288-296 | sorting a sorted sequence changes nothing |
| `Sorting.SortByPermutationOfSorted` | colorsort/analyzed_image.py:288-296 | with distinct keys, sorting any rearrangement of a sorted sequence gives the sorted sequence |
| `Sorting.SortBySorted` | colorsort/analyzed_image.py:288-296 | the sort result is non-decreasing in the key |
| `Sorting.SortByMultiset` | colorsort/analyzed_image.py:288-296 | the sort result is a permutation of the input |
| `Sorting.SortByStable` | colorsort/analyzed_image.py:288-296 | elements with equal keys keep their input order |
| `Sorting.SortBy` | colorsort/analyzed_image.py:288-296 | the stable sort of `list.sort` here and of `sorted` at line 95; its own contract keeps the length, and `SortByCorrect` and `SortByCharacterized` state that it is ordered, a permutation, stable and the only such result |
| `Sorting.FilterPartition` | colorsort/analyzed_image.py:279-285 | filtering by a predicate and by its complement splits the input multiset exactly |
| `Sorting.FilterMultiset` | colorsort/analyzed_image.py:279-285 | filtering keeps exactly the multiplicity of each element that satisfies the predicate |
| `Sorting.FilterAppend` | colorsort/analyzed_image.py:281-285 | filtering distributes over concatenation, as appending in a loop does |
| `Sorting.Filter` | colorsort/analyzed_image.py:279-285 | the kept elements in input order; its own contract bounds the length, and `FilterMultiset`, `FilterPartition` and `FilterAppend` state which elements it keeps |

## Left out

- Image decoding and resizing through PIL (lines 51, 62) and `get_as_array` (lines 132-144) are library I/O and pixel conversion.
- The resized dimensions `int((w / h) * L)` (lines 55-56, 59-60) are float arithmetic; only the orientation test is modelled.
- The clustering strategy `get_dominant_colors_kmeans` (lines 116-130) and `get_remapped_image` (lines 190-215) consist of calls into a fitted clustering model.
- The constructor's dispatch on the algorithm (lines 72-82) is not modelled. The `ValueError` branch cannot arise with the two-valued `Algorithm` datatype.
- The `n_colors > 1` warning (lines 73-77), the empty-bucket warning (lines 106-108) and the "not found" print (line 304) are logging. Only the last is modelled, as the `notFound` result of `ImageSorting.Colorsort`.
- `get_pretty_string` (lines 237-246) depends on Python's rendering of lists and NumPy values.
- `get_orientation` (lines 171-177) returns the stored orientation field and computes nothing.
- `compute_hue_dist`, `get_n_heuristic`, `util.round_to_int`, `util.normalize_8bit_hsv`, `util.hsv_to_rgb` and `util.rgb_to_hsv` are not part of this model. Their results are parameters.
- SelectHueDist: returns the HSV entries before `normalize_8bit_hsv` and produces no RGB list (lines 112-113), because those conversions are not part of this model.
- GenerateFilenameRoundTrip: the dominant hue, saturation and value are taken to be integers, written as `str` writes an int; a float rendering is not modelled.
- HueMetric: works on integer hues only; a float hue from the color conversion is not modelled.
- An image with an empty dominant-color list is not modelled: the `Analyzed` type requires at least one entry. In the code a negative `n_colors` makes `range(n_colors)` (line 99) run zero times, and `is_bw` (line 188) then raises `IndexError` through `get_dominant_colors(hsv)[0]` (line 169) inside the partition loop of `colorsort` (line 282). `HueDistance.SelectHueDist` still returns `Ok([])` for such an `n`.
- An image whose `image_path` is a `str` (line 29) is not modelled: the `name` field stands for `Path.name`. In the code `.name` (line 301) then raises `AttributeError`, which the `except IndexError` does not catch, so `colorsort` raises `AttributeError` as soon as the anchor scan reaches a color image with a `str` path: one at or before the anchor's first position in the sorted color list, or anywhere in that list when the anchor is not found. A `str` path in the black-and-white list is never read.

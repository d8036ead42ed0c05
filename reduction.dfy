/**
 * Reduction factors: choosing a zoom level from a table of allowed factors,
 * the even reducer used for thumbnails, and the power-of-two scales asked of
 * the image server for a page.
 */
module Reduction {
  import opened Js

  /** The `autofit` tag of a factor; `AutofitNone` is `null` or any other value. */
  datatype Autofit = AutofitAuto | AutofitHeight | AutofitWidth | AutofitNone

  datatype ReductionFactor = ReductionFactor(reduce: real, autofit: Autofit)

  /** The `direction` argument of `nextReduce`; `OtherDirection` is any other string. */
  datatype Direction = In | Out | Auto | Height | Width | OtherDirection

  predicate Sorted(fs: seq<ReductionFactor>) {
    forall i, j :: 0 <= i < j < |fs| ==> fs[i].reduce <= fs[j].reduce
  }

  predicate StrictlySorted(fs: seq<ReductionFactor>) {
    forall i, j :: 0 <= i < j < |fs| ==> fs[i].reduce < fs[j].reduce
  }

  function Distance(reduce: real, f: ReductionFactor): real {
    Abs(reduce - f.reduce)
  }

  /** Position `k` holds a factor nearest to `reduce`, and no earlier factor is as near. */
  predicate IsFirstNearest(reduce: real, fs: seq<ReductionFactor>, k: int) {
    && 0 <= k < |fs|
    && (forall j :: 0 <= j < |fs| ==> Distance(reduce, fs[k]) <= Distance(reduce, fs[j]))
    && (forall j :: 0 <= j < k ==> Distance(reduce, fs[k]) < Distance(reduce, fs[j]))
  }

  /** `quantizeReduce`: the reduce of the first factor nearest to `reduce`. */
  method QuantizeReduce(reduce: real, fs: seq<ReductionFactor>) returns (quantized: real)
    requires |fs| > 0
    ensures exists k :: IsFirstNearest(reduce, fs, k) && quantized == fs[k].reduce
  {
    quantized := fs[0].reduce;
    var distance := Abs(reduce - quantized);
    ghost var best := 0;
    for i := 1 to |fs|
      invariant IsFirstNearest(reduce, fs[..i], best)
      invariant quantized == fs[best].reduce && distance == Distance(reduce, fs[best])
    {
      var newDistance := Abs(reduce - fs[i].reduce);
      if newDistance < distance {
        distance := newDistance;
        quantized := fs[i].reduce;
        best := i;
      }
    }
    assert fs[..|fs|] == fs;
  }

  /** At most one position is the first nearest one, so `QuantizeReduce` is deterministic. */
  lemma FirstNearestUnique(reduce: real, fs: seq<ReductionFactor>, k1: int, k2: int)
    requires IsFirstNearest(reduce, fs, k1) && IsFirstNearest(reduce, fs, k2)
    ensures k1 == k2
  {
    assert Distance(reduce, fs[k1]) <= Distance(reduce, fs[k2]);
    assert Distance(reduce, fs[k2]) <= Distance(reduce, fs[k1]);
  }

  /** On an ascending table an exact tie between two factors goes to the smaller one. */
  lemma {:induction false} QuantizeTieGoesToSmaller(reduce: real, fs: seq<ReductionFactor>, k: int, j: int)
    requires Sorted(fs) && IsFirstNearest(reduce, fs, k)
    requires 0 <= j < |fs| && Distance(reduce, fs[j]) == Distance(reduce, fs[k])
    ensures fs[k].reduce <= fs[j].reduce
  {
  }

  /** Where the 'in' loop leaves its index: the last position after 0 below `current`, else 0. */
  predicate InChoice(fs: seq<ReductionFactor>, current: real, k: int) {
    && 0 <= k < |fs|
    && (k == 0 || fs[k].reduce < current)
    && (forall j :: k < j < |fs| ==> fs[j].reduce >= current)
  }

  /** Where the 'out' loop leaves its index: the first position above `current`, else the last. */
  predicate OutChoice(fs: seq<ReductionFactor>, current: real, k: int) {
    && 0 <= k < |fs|
    && (k == |fs| - 1 || fs[k].reduce > current)
    && (forall j :: 0 <= j < k ==> fs[j].reduce <= current)
  }

  /** `k` is the first position tagged `tag`. */
  predicate FirstTagged(fs: seq<ReductionFactor>, tag: Autofit, k: int) {
    && 0 <= k < |fs|
    && fs[k].autofit == tag
    && (forall j :: 0 <= j < k ==> fs[j].autofit != tag)
  }

  predicate NoneTagged(fs: seq<ReductionFactor>, tag: Autofit) {
    forall j :: 0 <= j < |fs| ==> fs[j].autofit != tag
  }

  predicate IsFitCandidate(f: ReductionFactor) {
    f.autofit == AutofitHeight || f.autofit == AutofitWidth
  }

  /** `k` is the first of the 'height'/'width' factors with the largest reduce. */
  predicate LeastReductionFit(fs: seq<ReductionFactor>, k: int) {
    && 0 <= k < |fs|
    && IsFitCandidate(fs[k])
    && (forall j :: 0 <= j < |fs| && IsFitCandidate(fs[j]) ==> fs[j].reduce <= fs[k].reduce)
    && (forall j :: 0 <= j < k && IsFitCandidate(fs[j]) ==> fs[j].reduce < fs[k].reduce)
  }

  /** The position `nextReduce` selects, for every direction. */
  predicate Selected(fs: seq<ReductionFactor>, current: real, dir: Direction, k: int) {
    match dir
    case In => InChoice(fs, current, k)
    case Out => OutChoice(fs, current, k)
    case Auto =>
      || FirstTagged(fs, AutofitAuto, k)
      || (&& NoneTagged(fs, AutofitAuto)
          && (|| LeastReductionFit(fs, k)
              || ((forall j :: 0 <= j < |fs| ==> !IsFitCandidate(fs[j])) && k == 0 < |fs|)))
    case Height => FirstTagged(fs, AutofitHeight, k) || (NoneTagged(fs, AutofitHeight) && k == 0 < |fs|)
    case Width => FirstTagged(fs, AutofitWidth, k) || (NoneTagged(fs, AutofitWidth) && k == 0 < |fs|)
    case OtherDirection => k == 0 < |fs|
  }

  /** `Array.prototype.find` for a tag, as a position. */
  function FindTagged(fs: seq<ReductionFactor>, tag: Autofit): (r: Option<nat>)
    ensures r.Some? ==> FirstTagged(fs, tag, r.value)
    ensures r.None? ==> NoneTagged(fs, tag)
  {
    if |fs| == 0 then None
    else if fs[0].autofit == tag then Some(0)
    else match FindTagged(fs[1..], tag)
      case None => None
      case Some(k) => Some(k + 1)
  }

  function AutofitOf(dir: Direction): Autofit
    requires dir == Height || dir == Width
  {
    if dir == Height then AutofitHeight else AutofitWidth
  }

  /**
   * `nextReduce`. An empty table yields `None` (the original returns
   * `undefined`, an out-of-bounds element, on every path).
   */
  method NextReduce(current: real, dir: Direction, fs: seq<ReductionFactor>) returns (r: Option<ReductionFactor>)
    ensures r.None? <==> |fs| == 0
    ensures r.Some? ==> exists k :: Selected(fs, current, dir, k) && r.value == fs[k]
  {
    if |fs| == 0 {
      return None;
    }
    if dir == In {
      var newReduceIndex := 0;
      for i := 1 to |fs|
        invariant 0 <= newReduceIndex < i
        invariant newReduceIndex == 0 || fs[newReduceIndex].reduce < current
        invariant forall j :: newReduceIndex < j < i ==> fs[j].reduce >= current
      {
        if fs[i].reduce < current {
          newReduceIndex := i;
        }
      }
      assert Selected(fs, current, dir, newReduceIndex);
      return Some(fs[newReduceIndex]);
    } else if dir == Out {
      var lastIndex := |fs| - 1;
      var newReduceIndex := lastIndex;
      var i := lastIndex;
      while i >= 0
        invariant -1 <= i <= lastIndex
        invariant 0 <= newReduceIndex <= lastIndex && i <= newReduceIndex
        invariant newReduceIndex == lastIndex || fs[newReduceIndex].reduce > current
        invariant forall j :: i < j < newReduceIndex ==> fs[j].reduce <= current
      {
        if fs[i].reduce > current {
          newReduceIndex := i;
        }
        i := i - 1;
      }
      assert Selected(fs, current, dir, newReduceIndex);
      return Some(fs[newReduceIndex]);
    } else if dir == Auto {
      var autoMatch := FindTagged(fs, AutofitAuto);
      if autoMatch.Some? {
        assert Selected(fs, current, dir, autoMatch.value);
        return Some(fs[autoMatch.value]);
      }
      // The original filters the 'height'/'width' factors and then scans
      // them; the scan below tests the tag in place, in the same order.
      var choice: Option<nat> := None;
      for i := 0 to |fs|
        invariant choice.Some? ==> LeastReductionFit(fs[..i], choice.value)
        invariant choice.None? ==> forall j :: 0 <= j < i ==> !IsFitCandidate(fs[j])
      {
        if IsFitCandidate(fs[i]) && (choice.None? || fs[choice.value].reduce < fs[i].reduce) {
          choice := Some(i);
        }
      }
      assert fs[..|fs|] == fs;
      if choice.Some? {
        assert Selected(fs, current, dir, choice.value);
        return Some(fs[choice.value]);
      }
      assert Selected(fs, current, dir, 0);
    } else if dir == Height || dir == Width {
      var found := FindTagged(fs, AutofitOf(dir));
      if found.Some? {
        assert Selected(fs, current, dir, found.value);
        return Some(fs[found.value]);
      }
      assert Selected(fs, current, dir, 0);
    } else {
      assert Selected(fs, current, dir, 0);
    }
    return Some(fs[0]);
  }

  /** Every direction selects exactly one position: `NextReduce` is deterministic. */
  lemma SelectedUnique(fs: seq<ReductionFactor>, current: real, dir: Direction, k1: int, k2: int)
    requires Selected(fs, current, dir, k1) && Selected(fs, current, dir, k2)
    ensures k1 == k2
  {
  }

  /**
   * On an ascending table 'in' picks the largest reduce strictly below the
   * current one when there is such a factor, and the first factor otherwise.
   */
  lemma InPicksClosestFiner(fs: seq<ReductionFactor>, current: real, k: int)
    requires Sorted(fs) && InChoice(fs, current, k)
    ensures forall j :: 0 <= j < |fs| && fs[j].reduce < current ==> fs[j].reduce <= fs[k].reduce && fs[k].reduce < current
    ensures fs[k].reduce >= current ==> k == 0 && forall j :: 0 <= j < |fs| ==> fs[j].reduce >= current
  {
    forall j | 0 <= j < |fs| && fs[j].reduce < current
      ensures fs[j].reduce <= fs[k].reduce && fs[k].reduce < current
    {
      assert j <= k;
      if k == 0 { assert j == 0; }
    }
  }

  /**
   * On an ascending table 'out' picks the smallest reduce strictly above the
   * current one when there is such a factor, and the last factor otherwise.
   */
  lemma OutPicksClosestCoarser(fs: seq<ReductionFactor>, current: real, k: int)
    requires Sorted(fs) && OutChoice(fs, current, k)
    ensures forall j :: 0 <= j < |fs| && fs[j].reduce > current ==> fs[k].reduce <= fs[j].reduce && fs[k].reduce > current
    ensures fs[k].reduce <= current ==> k == |fs| - 1 && forall j :: 0 <= j < |fs| ==> fs[j].reduce <= current
  {
    forall j | 0 <= j < |fs| && fs[j].reduce > current
      ensures fs[k].reduce <= fs[j].reduce && fs[k].reduce > current
    {
      assert k <= j;
      if k == |fs| - 1 { assert j == k; }
    }
  }

  /**
   * Zooming in from a factor of a strictly ascending table steps to the factor
   * just before it, so repeated zooming in visits strictly decreasing reduces
   * and stops at the first factor.
   */
  lemma {:induction false} ZoomInSteps(fs: seq<ReductionFactor>, m: int, k: int)
    requires StrictlySorted(fs) && 0 < m < |fs| && InChoice(fs, fs[m].reduce, k)
    ensures k == m - 1
  {
    assert fs[m - 1].reduce < fs[m].reduce;
  }

  /** Zooming out from a factor of a strictly ascending table steps to the next one. */
  lemma {:induction false} ZoomOutSteps(fs: seq<ReductionFactor>, m: int, k: int)
    requires StrictlySorted(fs) && 0 <= m < |fs| - 1 && OutChoice(fs, fs[m].reduce, k)
    ensures k == m + 1
  {
    assert fs[m].reduce < fs[m + 1].reduce;
  }

  /**
   * The reducer requested for a thumbnail: the page width over the thumbnail
   * width, floored, then rounded to an even number with `2 * Math.round(x / 2)`.
   */
  function ThumbReduce(pageWidth: int, thumbWidth: int): (r: int)
    requires thumbWidth > 0
    ensures r % 2 == 0
    ensures var ideal := pageWidth / thumbWidth; r == ideal || r == ideal + 1
  {
    var ideal := pageWidth / thumbWidth;
    EvenRoundingStep(ideal);
    2 * Round(ideal as real / 2.0)
  }

  /** `2 * Math.round(n / 2)` keeps an even `n` and raises an odd one by one. */
  lemma EvenRoundingStep(n: int)
    ensures 2 * Round(n as real / 2.0) == if n % 2 == 0 then n else n + 1
  {
    var q := n / 2;
    if n % 2 == 0 {
      assert n as real / 2.0 + 0.5 == q as real + 0.5;
    } else {
      assert n as real / 2.0 + 0.5 == (q + 1) as real;
    }
  }

  /**
   * The scale `_getPageURI` asks for when no reduce is given: the largest
   * power of two from 1 to 32 not above the ratio of the page height to the
   * spread height.
   */
  function PowerOfTwoScale(ratio: real): (scale: int)
    ensures scale in {1, 2, 4, 8, 16, 32}
    ensures scale == 1 || scale as real <= ratio
    ensures scale == 32 || ratio < 2.0 * scale as real
  {
    if ratio < 2.0 then 1
    else if ratio < 4.0 then 2
    else if ratio < 8.0 then 4
    else if ratio < 16.0 then 8
    else if ratio < 32.0 then 16
    else 32
  }

  /** What `_getPageURI` asks of the book model. */
  datatype PageImage = TransparentImage | PageImage(index: int, reduce: real)

  /**
   * `_getPageURI`: a transparent image for an index outside the book,
   * otherwise the page at the given reduce or, without one, at the
   * power-of-two scale for `defaultRatio` (the page height over the spread
   * height, which the caller computes).
   */
  function PageUri(numLeafs: int, index: int, reduce: Option<real>, defaultRatio: real): (img: PageImage)
    ensures img.TransparentImage? <==> !(0 <= index < numLeafs)
    ensures img.PageImage? ==> img.index == index
    ensures img.PageImage? && reduce.Some? ==> img.reduce == reduce.value
    ensures img.PageImage? && reduce.None? ==> img.reduce == PowerOfTwoScale(defaultRatio) as real
    ensures img.PageImage? && reduce.None? ==> img.reduce in {1.0, 2.0, 4.0, 8.0, 16.0, 32.0}
  {
    if index < 0 || index >= numLeafs then TransparentImage
    else match reduce
      case Some(r) => PageImage(index, r)
      case None => PageImage(index, PowerOfTwoScale(defaultRatio) as real)
  }

  function Pow2(n: nat): (r: nat)
    ensures r >= 1
  {
    if n == 0 then 1 else 2 * Pow2(n - 1)
  }

  /** One entry of an HTML `srcset` attribute: the page at `scale`, with a pixel-density descriptor `density`x. */
  datatype SrcsetCandidate = SrcsetCandidate(scale: int, density: int)

  /** The scale list of `_getPageURISrcset` for a ratio. */
  function SrcsetScales(ratio: real): (scales: seq<int>)
    ensures scales == [] <==> ratio < 2.0
    ensures scales != [] ==> 2.0 * scales[0] as real <= ratio && (scales[0] == 16 || ratio < 4.0 * scales[0] as real)
    ensures forall i :: 0 <= i < |scales| ==> scales[i] * Pow2(i + 1) == 2 * scales[0]
    ensures scales != [] ==> scales[|scales| - 1] == 1
  {
    assert Pow2(1) == 2 && Pow2(2) == 4 && Pow2(3) == 8 && Pow2(4) == 16 && Pow2(5) == 32;
    if ratio < 2.0 then []
    else if ratio < 4.0 then [1]
    else if ratio < 8.0 then [2, 1]
    else if ratio < 16.0 then [4, 2, 1]
    else if ratio < 32.0 then [8, 4, 2, 1]
    else [16, 8, 4, 2, 1]
  }

  /**
   * `_getPageURISrcset`: candidate `i` is the page at scale `scales[i]` with
   * density descriptor `2^(i+1)`x. Every candidate renders the same number of
   * device pixels (`scale * density` is constant), the first candidate's scale
   * is half the largest power of two not above the ratio (capped at 16), and
   * the list ends with the full-resolution image.
   */
  function PageUriSrcset(numLeafs: int, index: int, reduce: Option<real>, defaultRatio: real): (cs: seq<SrcsetCandidate>)
    ensures !(0 <= index < numLeafs) ==> cs == []
    ensures var ratio := if reduce.Some? then reduce.value else defaultRatio;
      && (cs == [] <==> !(0 <= index < numLeafs) || ratio < 2.0)
      && (cs != [] ==> 2.0 * cs[0].scale as real <= ratio && (cs[0].scale == 16 || ratio < 4.0 * cs[0].scale as real))
    ensures forall i :: 0 <= i < |cs| ==> cs[i].density == Pow2(i + 1)
    ensures forall i :: 0 <= i < |cs| ==> cs[i].scale * cs[i].density == 2 * cs[0].scale
    ensures cs != [] ==> cs[|cs| - 1].scale == 1
  {
    if index < 0 || index >= numLeafs then []
    else
      var ratio := if reduce.Some? then reduce.value else defaultRatio;
      var scales := SrcsetScales(ratio);
      seq(|scales|, i requires 0 <= i < |scales| => SrcsetCandidate(scales[i], Pow2(i + 1)))
  }
}

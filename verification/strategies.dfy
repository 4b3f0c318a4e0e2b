/** The weighting strategies of powerUtils.py: `find_power_nflics`,
    `find_power_nflics3k`, `find_power_nflicsv2`, `find_power_sum` and the
    band and labelling part of `find_power_individual`. Each sums wavelet
    power over some scales, cuts the sum against a power threshold and the
    25th percentile of its strong values, and marks the connected
    components of what is left. */
module Strategies {
  import opened Basics
  import opened Components
  import opened Marking

  /** The fields of a `dataset` object that the strategies read once
      `read_img` and `applyWavelet` have run. Grids are row-major with `w`
      columns; `power` holds one grid per wavelet scale. */
  datatype Session = Session(
    w: nat,
    image: seq<real>,
    area: seq<real>,
    invalid: seq<bool>,
    power: seq<seq<real>>,
    scales: seq<real>,
    res: nat,
    coords: Coords,
    dataTag: string)

  /** Every layer is a grid of `n` pixels. */
  predicate Layers(layers: seq<seq<real>>, n: nat)
  {
    forall k :: 0 <= k < |layers| ==> |layers[k]| == n
  }

  /** The shapes the wavelet step produces: at least one scale, one power
      grid per scale, and all grids of the image's size. */
  predicate Valid(s: Session)
  {
    && |s.area| == |s.image| && |s.invalid| == |s.image|
    && |s.scales| > 0 && |s.power| == |s.scales|
    && Layers(s.power, |s.image|)
  }

  /** `np.sum(layers, axis=0)`. */
  function SumLayers(layers: seq<seq<real>>, n: nat): (r: seq<real>)
    requires Layers(layers, n)
    ensures |r| == n
    decreases |layers|
  {
    if |layers| == 0 then seq(n, i => 0.0)
    else
      var rest := SumLayers(layers[1..], n);
      seq(n, i requires 0 <= i < n => layers[0][i] + rest[i])
  }

  /** The values of pixel `i` across the layers. */
  function Column(layers: seq<seq<real>>, i: nat): (col: seq<real>)
    requires forall k :: 0 <= k < |layers| ==> i < |layers[k]|
    ensures |col| == |layers|
  {
    seq(|layers|, k requires 0 <= k < |layers| => layers[k][i])
  }

  /** Summing the layers sums every pixel's column. */
  lemma {:induction false} SumLayersColumns(layers: seq<seq<real>>, n: nat)
    requires Layers(layers, n)
    ensures forall i :: 0 <= i < n ==> SumLayers(layers, n)[i] == Sum(Column(layers, i))
    decreases |layers|
  {
    if |layers| > 0 {
      SumLayersColumns(layers[1..], n);
      forall i | 0 <= i < n
        ensures SumLayers(layers, n)[i] == Sum(Column(layers, i))
      {
        assert Column(layers, i)[1..] == Column(layers[1..], i);
      }
    }
  }

  /** `np.sum((xs + shift) ** .5)`. */
  function SumSqrt(xs: seq<real>, shift: real, sqrt: real -> real): real
  {
    if |xs| == 0 then 0.0 else sqrt(xs[0] + shift) + SumSqrt(xs[1..], shift, sqrt)
  }

  /** The result of a strategy: `None` for a reason, a 2-D map, the stack of
      three band maps of `ind`, the map and core list of `nflics3k`, or
      numpy's `ValueError` from the maximum of an empty index set. */
  datatype NoneReason = UnknownTag | NoStrongPower

  datatype Weighted =
    | NoneReturned(why: NoneReason)
    | Grid(grid: seq<real>)
    | Bands(bands: seq<seq<real>>)
    | GridAndCores(grid: seq<real>, cores: MaxPos)
    | ValueError

  /* ---------------------------------------------------------------
     find_power_nflics
     --------------------------------------------------------------- */

  /** The cross-dataset correction of `find_power_nflics`
      (powerUtils.py:25-31). */
  function Correction(tag: string): (c: Option<real>)
    ensures c.Some? <==> tag in {"MFG", "MSG", "GRIDSAT", "neutral"}
  {
    if tag == "MFG" then Some(-17.0)
    else if tag == "MSG" then Some(-8.0)
    else if tag == "GRIDSAT" then Some(-20.0)
    else if tag == "neutral" then Some(0.0)
    else None
  }

  /** `np.sum((xs + shift) ** .5)` with numpy's NaN as `None`: the root of
      a negative value is NaN, and so is every sum that holds one. */
  function SumSqrtOrNaN(xs: seq<real>, shift: real, sqrt: real -> real): (r: Option<real>)
    ensures r.None? <==> exists k :: 0 <= k < |xs| && xs[k] + shift < 0.0
    ensures r.Some? ==> r.value == SumSqrt(xs, shift, sqrt)
  {
    if |xs| == 0 then Some(0.0)
    else if xs[0] + shift < 0.0 then None
    else
      match SumSqrtOrNaN(xs[1..], shift, sqrt)
      case None => None
      case Some(rest) => Some(sqrt(xs[0] + shift) + rest)
  }

  /** `~(p < t)` where a `None` threshold stands for NaN: no value compares
      below NaN, so nothing is marked for zeroing. */
  function NotBelow(p: seq<real>, t: Option<real>): (m: seq<bool>)
    ensures |m| == |p|
    ensures forall i :: 0 <= i < |p| ==> (m[i] <==> t.None? || p[i] >= t.value)
  {
    match t
    case None => seq(|p|, _ => true)
    case Some(v) => AtLeast(p, v)
  }

  /** The summed power with invalid pixels zeroed, cut against `thresh_p`
      and the percentile (powerUtils.py:35-48). */
  function NflicsCut(s: Session, num: Numerics, corr: real): Option<seq<real>>
    requires Valid(s)
  {
    var total := ZeroInvalid(SumLayers(s.power, |s.image|), s.invalid);
    var threshP := SumSqrtOrNaN(s.scales, corr, num.sqrt);
    PercentileCut(total, NotBelow(total, threshP), num)
  }

  function FindPowerNflics(s: Session, num: Numerics): (r: Weighted)
    requires Valid(s)
    ensures r.NoneReturned? || r.Grid?
    ensures r == NoneReturned(UnknownTag) <==> Correction(s.dataTag).None?
    ensures r.Grid? ==> |r.grid| == |s.image|
  {
    match Correction(s.dataTag)
    case None => NoneReturned(UnknownTag)
    case Some(corr) =>
      match NflicsCut(s, num, corr)
      case None => NoneReturned(NoStrongPower)
      case Some(t) => Grid(MarkStrongest(s.w, t, s.area))
  }

  /* ---------------------------------------------------------------
     find_power_nflics3k
     --------------------------------------------------------------- */

  /** `np.sum(scales ** .5) * len(scales) * 0.25` (powerUtils.py:84). */
  function Nflics3kThreshold(scales: seq<real>, sqrt: real -> real): real
  {
    SumSqrt(scales, 0.0, sqrt) * (|scales| as real) * 0.25
  }

  function Nflics3kCut(s: Session, num: Numerics): Option<seq<real>>
    requires Valid(s)
  {
    var total := ZeroInvalid(SumLayers(s.power, |s.image|), s.invalid);
    PercentileCut(total, AtLeast(total, Nflics3kThreshold(s.scales, num.sqrt)), num)
  }

  /** The noise floor of the strategies that use the smallest scale. */
  function FirstScaleFloor(s: Session, num: Numerics): Floor
    requires Valid(s)
  {
    Floor(s.res, num.pi, s.scales[0])
  }

  function FindPowerNflics3k(s: Session, num: Numerics): (r: Weighted)
    requires Valid(s) && CoordsFit(s.coords, s.w, |s.image|)
    ensures r.NoneReturned? || r.GridAndCores?
    ensures r.NoneReturned? ==> r.why == NoStrongPower
    ensures r.GridAndCores? ==> |r.grid| == |s.image| && Parallel(r.cores)
  {
    match Nflics3kCut(s, num)
    case None => NoneReturned(NoStrongPower)
    case Some(t) =>
      var f := MarkCores(s.w, t, s.area, s.coords, FirstScaleFloor(s, num));
      GridAndCores(f.power, f.cores)
  }

  /* ---------------------------------------------------------------
     find_power_nflicsv2
     --------------------------------------------------------------- */

  const LargeScale: real := 100.0
  const SmallScale: real := 65.0

  /** `np.min(np.where(xs > t))`: the first index whose value exceeds `t`. */
  function FirstAbove(xs: seq<real>, t: real): (k: Option<nat>)
    ensures k.None? <==> forall j :: 0 <= j < |xs| ==> xs[j] <= t
    ensures k.Some? ==> k.value < |xs| && xs[k.value] > t && forall j :: 0 <= j < k.value ==> xs[j] <= t
  {
    if |xs| == 0 then None
    else if xs[0] > t then Some(0)
    else
      match FirstAbove(xs[1..], t)
      case None => None
      case Some(k) => Some(k + 1)
  }

  /** `np.max(np.where(xs <= t))`: the last index whose value is at most `t`. */
  function LastAtMost(xs: seq<real>, t: real): (k: Option<nat>)
    ensures k.None? <==> forall j :: 0 <= j < |xs| ==> xs[j] > t
    ensures k.Some? ==> k.value < |xs| && xs[k.value] <= t && forall j :: k.value < j < |xs| ==> xs[j] > t
  {
    if |xs| == 0 then None
    else if xs[|xs| - 1] <= t then Some(|xs| - 1)
    else LastAtMost(xs[..|xs| - 1], t)
  }

  /** `len(np.where(xs <= t)[0])`. */
  function CountAtMost(xs: seq<real>, t: real): nat
  {
    |xs| - |Greater(xs, t)|
  }

  /** With a scale above 100 km (powerUtils.py:147-163): the power summed
      over the scales strictly before `lastSmall`, masked by the large and
      small scale thresholds. */
  function V2Split(s: Session, num: Numerics, firstLarge: nat, lastSmall: nat): (r: (seq<real>, seq<bool>))
    requires Valid(s) && firstLarge <= |s.scales| && lastSmall <= |s.scales|
    ensures |r.0| == |s.image| && |r.1| == |s.image|
  {
    var n := |s.image|;
    var small := SumLayers(s.power[..lastSmall], n);
    var large := SumLayers(s.power[firstLarge..], n);
    (small, V2Mask(small, large, ThreshLs(s.scales, num, firstLarge), ThreshSs(s.scales, num, lastSmall),
                   ThreshSl(s.scales, num, lastSmall)))
  }

  /** `thresh_ls`: the square root of the summed large scales, times their
      number, times 1.5 (powerUtils.py:151). */
  function ThreshLs(scales: seq<real>, num: Numerics, firstLarge: nat): real
    requires firstLarge <= |scales|
  {
    num.sqrt(Sum(scales[firstLarge..])) * (|Greater(scales, LargeScale)| as real) * 1.5
  }

  /** `thresh_ss`: the square root of the summed scales before the last
      small one, times the number of small scales (powerUtils.py:152). */
  function ThreshSs(scales: seq<real>, num: Numerics, lastSmall: nat): real
    requires lastSmall <= |scales|
  {
    num.sqrt(Sum(scales[..lastSmall])) * (CountAtMost(scales, SmallScale) as real)
  }

  /** `thresh_sl`: half the square root of the summed scales before the
      last small one (powerUtils.py:153). */
  function ThreshSl(scales: seq<real>, num: Numerics, lastSmall: nat): real
    requires lastSmall <= |scales|
  {
    num.sqrt(Sum(scales[..lastSmall])) * 0.5
  }

  /** `(ls & sl) | ss` of powerUtils.py:156-160. */
  function V2Mask(small: seq<real>, large: seq<real>, threshLs: real, threshSs: real, threshSl: real): (m: seq<bool>)
    requires |large| == |small|
    ensures |m| == |small|
    ensures forall i :: 0 <= i < |small| ==>
      (m[i] <==> (large[i] > threshLs && small[i] > threshSl) || small[i] > threshSs)
  {
    seq(|small|, i requires 0 <= i < |small| =>
      (large[i] > threshLs && small[i] > threshSl) || small[i] > threshSs)
  }

  /** Without a scale above 100 km (powerUtils.py:165-168): the power summed
      over every scale, masked by `thresh_all`. */
  function V2All(s: Session, num: Numerics): (r: (seq<real>, seq<bool>))
    requires Valid(s)
    ensures |r.0| == |s.image| && |r.1| == |s.image|
  {
    var total := SumLayers(s.power, |s.image|);
    var threshAll := SumSqrt(s.scales, 0.0, num.sqrt) * (CountAtMost(s.scales, SmallScale) as real);
    (total, Above(total, threshAll))
  }

  /** The map nflicsv2 cuts and the mask it cuts with (powerUtils.py:141-168);
      `None` stands for the `ValueError` of `np.max` on an empty `mpos`. */
  function V2Selection(s: Session, num: Numerics): (r: Option<(seq<real>, seq<bool>)>)
    requires Valid(s)
    ensures r.Some? ==> |r.value.0| == |s.image| && |r.value.1| == |s.image|
  {
    match FirstAbove(s.scales, LargeScale)
    case Some(firstLarge) =>
      (match LastAtMost(s.scales, SmallScale)
       case None => None
       case Some(lastSmall) => Some(V2Split(s, num, firstLarge, lastSmall)))
    case None => Some(V2All(s, num))
  }

  /** Invalid pixels zeroed after the mask is taken, then the cut against
      the percentile and the mask (powerUtils.py:168-173). */
  function V2Cut(sel: (seq<real>, seq<bool>), invalid: seq<bool>, num: Numerics): Option<seq<real>>
    requires |sel.0| == |sel.1| == |invalid|
  {
    PercentileCut(ZeroInvalid(sel.0, invalid), sel.1, num)
  }

  function FindPowerNflicsV2(s: Session, num: Numerics): (r: Weighted)
    requires Valid(s)
    ensures r.NoneReturned? || r.Grid? || r.ValueError?
    ensures r.ValueError? <==> V2Selection(s, num).None?
    ensures r.NoneReturned? ==> r.why == NoStrongPower
    ensures r.Grid? ==> |r.grid| == |s.image|
  {
    match V2Selection(s, num)
    case None => ValueError
    case Some(sel) =>
      match V2Cut(sel, s.invalid, num)
      case None => NoneReturned(NoStrongPower)
      case Some(t) => Grid(MarkColdest(s.w, t, s.image, s.area, FirstScaleFloor(s, num)))
  }

  /* ---------------------------------------------------------------
     find_power_sum
     --------------------------------------------------------------- */

  /** `scale ** .5 * tsp`, with `tsp` 5 above 35 km and 2 otherwise
      (powerUtils.py:219-223). */
  function SliceThreshold(scale: real, sqrt: real -> real): real
  {
    sqrt(scale) * (if scale > 35.0 then 5.0 else 2.0)
  }

  /** No pixel of the grid exceeds 1. */
  predicate Weak(g: seq<real>)
  {
    forall i :: 0 <= i < |g| ==> g[i] <= 1.0
  }

  /** One slice cut against its own threshold and percentile
      (powerUtils.py:217-226); `None` for the `IndexError` of a weak slice. */
  function SliceCut(layer: seq<real>, scale: real, num: Numerics): (r: Option<seq<real>>)
    ensures r.None? <==> Weak(layer)
    ensures r.Some? ==> |r.value| == |layer|
  {
    PercentileCut(layer, AtLeast(layer, SliceThreshold(scale, num.sqrt)), num)
  }

  /** Every slice cut in turn (powerUtils.py:215-228); `None` as soon as one
      slice is weak. */
  function CutSlices(layers: seq<seq<real>>, scales: seq<real>, num: Numerics, n: nat): (r: Option<seq<seq<real>>>)
    requires |scales| == |layers| && Layers(layers, n)
    ensures r.None? <==> exists k :: 0 <= k < |layers| && Weak(layers[k])
    ensures r.Some? ==> |r.value| == |layers| && Layers(r.value, n)
    ensures r.Some? ==> forall k :: 0 <= k < |layers| ==> SliceCut(layers[k], scales[k], num) == Some(r.value[k])
    decreases |layers|
  {
    if |layers| == 0 then Some([])
    else
      var rest := CutSlices(layers[1..], scales[1..], num, n);
      assert forall k :: 1 <= k < |layers| ==> layers[1..][k - 1] == layers[k] && scales[1..][k - 1] == scales[k];
      match SliceCut(layers[0], scales[0], num)
      case None => None
      case Some(c) =>
        if rest.None? then None else Some([c] + rest.value)
  }

  function FindPowerSum(s: Session, num: Numerics): (r: Weighted)
    requires Valid(s)
    ensures r.Grid? && |r.grid| == |s.image|
    ensures (exists k :: 0 <= k < |s.power| && Weak(s.power[k])) ==> forall i :: 0 <= i < |s.image| ==> r.grid[i] == 0.0
  {
    var n := |s.image|;
    match CutSlices(s.power, s.scales, num, n)
    case None => Grid(seq(n, i => 0.0))
    case Some(cut) =>
      var t := ZeroInvalid(SumLayers(cut, n), s.invalid);
      Grid(MarkColdest(s.w, t, s.image, s.area, FirstScaleFloor(s, num)))
  }

  /* ---------------------------------------------------------------
     find_power_individual
     --------------------------------------------------------------- */

  /** The scale bands of `find_power_individual` (powerUtils.py:280-282). */
  datatype Band = SmallBand | MediumBand | LargeBand

  predicate InBand(b: Band, x: real)
  {
    match b
    case SmallBand => 12.0 < x <= 35.0
    case MediumBand => 35.0 < x < 65.0
    case LargeBand => x >= 65.0
  }

  /** `scales[band]`. */
  function BandScales(scales: seq<real>, b: Band): (r: seq<real>)
    ensures forall x :: x in r <==> x in scales && InBand(b, x)
    ensures |r| <= |scales|
  {
    if |scales| == 0 then []
    else if InBand(b, scales[0]) then [scales[0]] + BandScales(scales[1..], b)
    else BandScales(scales[1..], b)
  }

  /** `wll[band, :, :]`: the layers whose scale lies in the band. */
  function BandLayers(layers: seq<seq<real>>, scales: seq<real>, b: Band, n: nat): (r: seq<seq<real>>)
    requires |layers| == |scales| && Layers(layers, n)
    ensures |r| == |BandScales(scales, b)|
    ensures Layers(r, n)
  {
    if |scales| == 0 then []
    else
      var rest := BandLayers(layers[1..], scales[1..], b, n);
      if InBand(b, scales[0]) then [layers[0]] + rest else rest
  }

  /** The band's thresholds: `np.sum(scales[band]) ** .5` times a factor. */
  function BandRoot(s: Session, num: Numerics, b: Band): real
  {
    num.sqrt(Sum(BandScales(s.scales, b)))
  }

  /** `psmall`, `pmed`, `plarge`: the standardised power summed over the
      band's layers (powerUtils.py:284-286). */
  function BandPower(s: Session, wll: seq<seq<real>>, b: Band): (r: seq<real>)
    requires Valid(s) && |wll| == |s.scales| && Layers(wll, |s.image|)
    ensures |r| == |s.image|
  {
    SumLayers(BandLayers(wll, s.scales, b, |s.image|), |s.image|)
  }

  /** The band's power exceeds `factor` times the square root of the
      band's summed scales. */
  function BandAbove(s: Session, num: Numerics, wll: seq<seq<real>>, b: Band, factor: real): (m: seq<bool>)
    requires Valid(s) && |wll| == |s.scales| && Layers(wll, |s.image|)
    ensures |m| == |s.image|
  {
    Above(BandPower(s, wll, b), BandRoot(s, num, b) * factor)
  }

  /** `mask`, `med_mask` and `ls` (powerUtils.py:289-304): the large band
      passes `thresh_ls`; the small and medium bands pass their own high
      threshold, or their low one where the large band also passes. */
  function BandMask(s: Session, num: Numerics, wll: seq<seq<real>>, b: Band): (m: seq<bool>)
    requires Valid(s) && |wll| == |s.scales| && Layers(wll, |s.image|)
    ensures |m| == |s.image|
  {
    var n := |s.image|;
    var ls := BandAbove(s, num, wll, LargeBand, 0.9);
    match b
    case LargeBand => ls
    case _ =>
      var high := BandAbove(s, num, wll, b, |BandScales(s.scales, b)| as real * 0.75);
      var low := BandAbove(s, num, wll, b, 0.01);
      seq(n, i requires 0 <= i < n => (ls[i] && low[i]) || high[i])
  }

  /** One band cut against its mask and percentile, then zeroed where
      invalid; `None` for the `IndexError` that makes the strategy return
      `None` (powerUtils.py:306-325). */
  function BandCut(s: Session, num: Numerics, wll: seq<seq<real>>, b: Band): (r: Option<seq<real>>)
    requires Valid(s) && |wll| == |s.scales| && Layers(wll, |s.image|)
    ensures r.Some? ==> |r.value| == |s.image|
  {
    match PercentileCut(BandPower(s, wll, b), BandMask(s, num, wll, b), num)
    case None => None
    case Some(c) => Some(ZeroInvalid(c, s.invalid))
  }

  /** The three band cuts, in band order, once all three succeed. */
  function IndCuts(s: Session, num: Numerics, wll: seq<seq<real>>): (r: Option<seq<seq<real>>>)
    requires Valid(s) && |wll| == |s.scales| && Layers(wll, |s.image|)
    ensures r.Some? <==>
      BandCut(s, num, wll, SmallBand).Some? && BandCut(s, num, wll, MediumBand).Some? && BandCut(s, num, wll, LargeBand).Some?
    ensures r.Some? ==>
      r.value == [BandCut(s, num, wll, SmallBand).value, BandCut(s, num, wll, MediumBand).value, BandCut(s, num, wll, LargeBand).value]
  {
    match BandCut(s, num, wll, SmallBand)
    case None => None
    case Some(cs) =>
      match BandCut(s, num, wll, MediumBand)
      case None => None
      case Some(cm) =>
        match BandCut(s, num, wll, LargeBand)
        case None => None
        case Some(cl) => Some([cs, cm, cl])
  }

  /** A band without scales sums to an all-zero map, so its cut raises
      `IndexError`. */
  lemma EmptyBandWeak(s: Session, num: Numerics, wll: seq<seq<real>>, b: Band)
    requires Valid(s) && |wll| == |s.scales| && Layers(wll, |s.image|)
    requires |BandScales(s.scales, b)| == 0
    ensures Weak(BandPower(s, wll, b))
    ensures BandCut(s, num, wll, b).None?
  {
  }

  /** A band whose cut succeeds has a scale. */
  lemma CutBandNonEmpty(s: Session, num: Numerics, wll: seq<seq<real>>, b: Band)
    requires Valid(s) && |wll| == |s.scales| && Layers(wll, |s.image|)
    requires BandCut(s, num, wll, b).Some?
    ensures |BandScales(s.scales, b)| > 0
  {
    if |BandScales(s.scales, b)| == 0 {
      EmptyBandWeak(s, num, wll, b);
    }
  }

  /** The noise floor of band `b`: its smallest scale. */
  function BandFloor(s: Session, num: Numerics, b: Band): Floor
    requires |BandScales(s.scales, b)| > 0
  {
    Floor(s.res, num.pi, MinOf(BandScales(s.scales, b)))
  }

  /** One band of the result: its cut, zeroed where invalid once more,
      marked at the first coldest pixel of every component that passes the
      band's noise floor (powerUtils.py:332-357). */
  function MarkBand(s: Session, num: Numerics, wll: seq<seq<real>>, b: Band): (r: seq<real>)
    requires Valid(s) && |wll| == |s.scales| && Layers(wll, |s.image|)
    requires BandCut(s, num, wll, b).Some?
    ensures |r| == |s.image|
  {
    CutBandNonEmpty(s, num, wll, b);
    MarkColdest(s.w, ZeroInvalid(BandCut(s, num, wll, b).value, s.invalid), s.image, s.area, BandFloor(s, num, b))
  }

  /** `wll` is the power stack with every layer divided by its standard
      deviation, computed outside the model. */
  function FindPowerIndividual(s: Session, num: Numerics, wll: seq<seq<real>>): (r: Weighted)
    requires Valid(s) && |wll| == |s.scales| && Layers(wll, |s.image|)
    ensures r.NoneReturned? || r.Bands?
    ensures r.NoneReturned? ==> r.why == NoStrongPower
    ensures r.Bands? <==> IndCuts(s, num, wll).Some?
    ensures r.Bands? ==> |r.bands| == 3 && Layers(r.bands, |s.image|)
    ensures r.Bands? ==>
      && BandCut(s, num, wll, SmallBand).Some? && BandCut(s, num, wll, MediumBand).Some?
      && BandCut(s, num, wll, LargeBand).Some?
      && r.bands == [MarkBand(s, num, wll, SmallBand), MarkBand(s, num, wll, MediumBand),
                     MarkBand(s, num, wll, LargeBand)]
  {
    if IndCuts(s, num, wll).None? then NoneReturned(NoStrongPower)
    else
      assert BandCut(s, num, wll, SmallBand).Some? && BandCut(s, num, wll, MediumBand).Some?
        && BandCut(s, num, wll, LargeBand).Some?;
      Bands(IndBands(s, num, wll))
  }

  /** The three marked band maps, in band order. */
  function IndBands(s: Session, num: Numerics, wll: seq<seq<real>>): (r: seq<seq<real>>)
    requires Valid(s) && |wll| == |s.scales| && Layers(wll, |s.image|)
    requires BandCut(s, num, wll, SmallBand).Some? && BandCut(s, num, wll, MediumBand).Some?
    requires BandCut(s, num, wll, LargeBand).Some?
    ensures |r| == 3 && Layers(r, |s.image|)
  {
    var small := MarkBand(s, num, wll, SmallBand);
    var medium := MarkBand(s, num, wll, MediumBand);
    var large := MarkBand(s, num, wll, LargeBand);
    ThreeLayers(small, medium, large, |s.image|);
    [small, medium, large]
  }

  lemma ThreeLayers(a: seq<real>, b: seq<real>, c: seq<real>, n: nat)
    requires |a| == |b| == |c| == n
    ensures Layers([a, b, c], n)
  {
  }

  /* ---------------------------------------------------------------
     Properties of the strategies
     --------------------------------------------------------------- */

  /** The power of pixel `i` summed over all scales. */
  function PixelPower(s: Session, i: nat): real
    requires Valid(s) && i < |s.image|
  {
    Sum(Column(s.power, i))
  }

  /** The threshold step of nflics: with a known data tag, the strategy
      gives up exactly when no valid pixel has summed power above 1, and
      otherwise a pixel is zeroed exactly when it is invalid, has no
      power, or lies below the percentile or below
      `thresh_p = sum(sqrt(scale + correction))`. When some
      `scale + correction` is negative, `thresh_p` is NaN and only the
      percentile cuts. */
  lemma NflicsThreshold(s: Session, num: Numerics, corr: real)
    requires Valid(s) && Correction(s.dataTag) == Some(corr)
    ensures NflicsCut(s, num, corr).None? <==>
      forall i :: 0 <= i < |s.image| ==> s.invalid[i] || PixelPower(s, i) <= 1.0
    ensures NflicsCut(s, num, corr).Some? ==>
      var total := ZeroInvalid(SumLayers(s.power, |s.image|), s.invalid);
      var pct := num.pct25(Greater(total, 1.0));
      forall i :: 0 <= i < |s.image| ==>
        (NflicsCut(s, num, corr).value[i] == 0.0 <==>
          s.invalid[i] || PixelPower(s, i) == 0.0 || PixelPower(s, i) < pct
          || ((forall k :: 0 <= k < |s.scales| ==> s.scales[k] + corr >= 0.0)
              && PixelPower(s, i) < SumSqrt(s.scales, corr, num.sqrt)))
  {
    SumLayersColumns(s.power, |s.image|);
  }

  /** The cut of nflics keeps only values above 1. */
  lemma NflicsCutNonneg(s: Session, num: Numerics, corr: real)
    requires Valid(s) && PercentileInRange(num) && NflicsCut(s, num, corr).Some?
    ensures forall i :: 0 <= i < |s.image| ==> NflicsCut(s, num, corr).value[i] >= 0.0
  {
    var total := ZeroInvalid(SumLayers(s.power, |s.image|), s.invalid);
    CutSurvivors(total, NotBelow(total, SumSqrtOrNaN(s.scales, corr, num.sqrt)), num);
  }

  /** One marker per connected component of the cut map, at its first
      strongest pixel, holding the negated cloud area; every other pixel
      keeps its cut power. */
  lemma NflicsMarkers(s: Session, num: Numerics, corr: real)
    requires Valid(s) && PercentileInRange(num)
    requires Correction(s.dataTag) == Some(corr) && NflicsCut(s, num, corr).Some?
    requires forall i :: 0 <= i < |s.area| ==> s.area[i] >= 0.0
    ensures
      var t := NflicsCut(s, num, corr).value;
      var r := FindPowerNflics(s, num);
      r.Grid? && MarkedStrongest(s.w, t, s.area, r.grid)
  {
    var t := NflicsCut(s, num, corr).value;
    assert FindPowerNflics(s, num) == Grid(MarkStrongest(s.w, t, s.area));
    NflicsCutNonneg(s, num, corr);
    MarkStrongestSpec(s.w, t, s.area);
  }

  /** nflics3k writes no marker, drops only components below the noise
      floor, and reports one core per component that passes it, in order
      of the component's first pixel, with the coordinates and cloud area
      of its first strongest pixel. */
  lemma Nflics3kCores(s: Session, num: Numerics)
    requires Valid(s) && CoordsFit(s.coords, s.w, |s.image|) && PercentileInRange(num)
    requires Nflics3kCut(s, num).Some?
    ensures
      var t := Nflics3kCut(s, num).value;
      var r := FindPowerNflics3k(s, num);
      r.GridAndCores? && |r.grid| == |t| && MarkedCores(s.w, t, s.area, s.coords, FirstScaleFloor(s, num), Found(r.grid, r.cores))
  {
    var total := ZeroInvalid(SumLayers(s.power, |s.image|), s.invalid);
    CutSurvivors(total, AtLeast(total, Nflics3kThreshold(s.scales, num.sqrt)), num);
    MarkCoresSpec(s.w, Nflics3kCut(s, num).value, s.area, s.coords, FirstScaleFloor(s, num));
  }

  /** With a scale above 100 km, nflicsv2 raises `ValueError` exactly when
      no scale is at most 65 km. */
  lemma V2Raises(s: Session, num: Numerics)
    requires Valid(s)
    requires exists k :: 0 <= k < |s.scales| && s.scales[k] > LargeScale
    ensures V2Selection(s, num).None? <==> forall k :: 0 <= k < |s.scales| ==> s.scales[k] > SmallScale
  {
  }

  /** With a scale above 100 km, the cut map is the power summed over the
      scales strictly before the last one of at most 65 km. */
  lemma V2SmallScales(s: Session, num: Numerics)
    requires Valid(s) && V2Selection(s, num).Some?
    requires exists k :: 0 <= k < |s.scales| && s.scales[k] > LargeScale
    ensures exists m ::
      && 0 <= m < |s.scales| && s.scales[m] <= SmallScale
      && (forall j :: m < j < |s.scales| ==> s.scales[j] > SmallScale)
      && (forall i :: 0 <= i < |s.image| ==> V2Selection(s, num).value.0[i] == Sum(Column(s.power[..m], i)))
  {
    var firstLarge := FirstAbove(s.scales, LargeScale).value;
    var m := LastAtMost(s.scales, SmallScale).value;
    assert V2Selection(s, num) == Some(V2Split(s, num, firstLarge, m));
    V2SplitColumns(s, num, firstLarge, m);
    assert s.scales[m] <= SmallScale && forall j :: m < j < |s.scales| ==> s.scales[j] > SmallScale;
  }

  lemma V2SplitColumns(s: Session, num: Numerics, firstLarge: nat, m: nat)
    requires Valid(s) && firstLarge <= |s.scales| && m <= |s.scales|
    ensures forall i :: 0 <= i < |s.image| ==> V2Split(s, num, firstLarge, m).0[i] == Sum(Column(s.power[..m], i))
  {
    var small := s.power[..m];
    assert Layers(small, |s.image|);
    SumLayersColumns(small, |s.image|);
  }

  /** The mask of the split selection at every pixel, stated with column
      sums: `(ls & sl) | ss`. */
  lemma V2SplitMask(s: Session, num: Numerics, firstLarge: nat, m: nat)
    requires Valid(s) && firstLarge <= |s.scales| && m <= |s.scales|
    ensures forall i :: 0 <= i < |s.image| ==>
      var small := Sum(Column(s.power[..m], i));
      var large := Sum(Column(s.power[firstLarge..], i));
      (V2Split(s, num, firstLarge, m).1[i] <==>
        (large > ThreshLs(s.scales, num, firstLarge) && small > ThreshSl(s.scales, num, m))
        || small > ThreshSs(s.scales, num, m))
  {
    var n := |s.image|;
    var small := s.power[..m];
    var large := s.power[firstLarge..];
    assert Layers(small, n) && Layers(large, n);
    SumLayersColumns(small, n);
    SumLayersColumns(large, n);
  }

  /** With a scale above 100 km and one at most 65 km, a pixel passes the
      mask when both the power of the scales from the first large one on
      and the power of the scales before the last small one are strong, or
      when the latter is very strong (powerUtils.py:151-160). */
  lemma V2LargeMask(s: Session, num: Numerics)
    requires Valid(s) && V2Selection(s, num).Some?
    requires exists k :: 0 <= k < |s.scales| && s.scales[k] > LargeScale
    ensures FirstAbove(s.scales, LargeScale).Some? && LastAtMost(s.scales, SmallScale).Some?
    ensures forall i :: 0 <= i < |s.image| ==>
      var fl := FirstAbove(s.scales, LargeScale).value;
      var m := LastAtMost(s.scales, SmallScale).value;
      var small := Sum(Column(s.power[..m], i));
      var large := Sum(Column(s.power[fl..], i));
      (V2Selection(s, num).value.1[i] <==>
        (large > ThreshLs(s.scales, num, fl) && small > ThreshSl(s.scales, num, m))
        || small > ThreshSs(s.scales, num, m))
  {
    var firstLarge := FirstAbove(s.scales, LargeScale).value;
    var m := LastAtMost(s.scales, SmallScale).value;
    assert V2Selection(s, num) == Some(V2Split(s, num, firstLarge, m));
    V2SplitMask(s, num, firstLarge, m);
  }

  /** Without a scale above 100 km, the cut map is every pixel's total
      power and the mask keeps the pixels above `thresh_all`. */
  lemma V2AllScales(s: Session, num: Numerics)
    requires Valid(s)
    requires forall k :: 0 <= k < |s.scales| ==> s.scales[k] <= LargeScale
    ensures V2Selection(s, num).Some?
    ensures forall i :: 0 <= i < |s.image| ==>
      && V2Selection(s, num).value.0[i] == PixelPower(s, i)
      && (V2Selection(s, num).value.1[i] <==>
            PixelPower(s, i) > SumSqrt(s.scales, 0.0, num.sqrt) * (CountAtMost(s.scales, SmallScale) as real))
  {
    SumLayersColumns(s.power, |s.image|);
  }

  /** The cut of nflicsv2: zero on every invalid pixel, and otherwise a
      pixel survives exactly when it has power, passes the mask and
      reaches the percentile. */
  lemma V2CutSpec(sel: (seq<real>, seq<bool>), invalid: seq<bool>, num: Numerics)
    requires |sel.0| == |sel.1| == |invalid|
    requires V2Cut(sel, invalid, num).Some?
    ensures forall i :: 0 <= i < |invalid| ==>
      var t := V2Cut(sel, invalid, num).value;
      var pct := num.pct25(Greater(ZeroInvalid(sel.0, invalid), 1.0));
      (t[i] != 0.0 <==> !invalid[i] && sel.0[i] != 0.0 && sel.1[i] && !(sel.0[i] < pct))
  {
  }

  /** The image under the marked components is cloud: negative, with a
      positive cloud area, at every pixel that is not invalid. */
  predicate ColdWhereValid(s: Session)
    requires |s.area| == |s.image| && |s.invalid| == |s.image|
  {
    forall i :: 0 <= i < |s.image| && !s.invalid[i] ==> s.image[i] < 0.0 && s.area[i] > 0.0
  }

  /** Marking a cut map that is non-negative and zero where invalid. */
  lemma ColdestOnCut(s: Session, t: seq<real>, fl: Floor)
    requires |t| == |s.image| == |s.area| == |s.invalid| && ColdWhereValid(s)
    requires forall i :: 0 <= i < |t| ==> t[i] >= 0.0 && (s.invalid[i] ==> t[i] == 0.0)
    ensures MarkedColdest(s.w, t, s.image, s.area, fl, MarkColdest(s.w, t, s.image, s.area, fl))
  {
    MarkColdestSpec(s.w, t, s.image, s.area, fl);
  }

  lemma V2Markers(s: Session, num: Numerics)
    requires Valid(s) && ColdWhereValid(s) && PercentileInRange(num)
    requires V2Selection(s, num).Some? && V2Cut(V2Selection(s, num).value, s.invalid, num).Some?
    ensures
      var t := V2Cut(V2Selection(s, num).value, s.invalid, num).value;
      var r := FindPowerNflicsV2(s, num);
      r.Grid? && MarkedColdest(s.w, t, s.image, s.area, FirstScaleFloor(s, num), r.grid)
  {
    var sel := V2Selection(s, num).value;
    CutSurvivors(ZeroInvalid(sel.0, s.invalid), sel.1, num);
    ColdestOnCut(s, V2Cut(sel, s.invalid, num).value, FirstScaleFloor(s, num));
  }

  /** Each layer is non-negative, so their sum is. */
  lemma {:induction false} SumLayersNonneg(layers: seq<seq<real>>, n: nat)
    requires Layers(layers, n)
    requires forall k, i :: 0 <= k < |layers| && 0 <= i < n ==> layers[k][i] >= 0.0
    ensures forall i :: 0 <= i < n ==> SumLayers(layers, n)[i] >= 0.0
    decreases |layers|
  {
    if |layers| > 0 {
      SumLayersNonneg(layers[1..], n);
    }
  }

  /** A slice pixel survives its cut exactly when it is non-zero, reaches
      `sqrt(scale) * 5` above 35 km or `sqrt(scale) * 2` otherwise, and
      reaches the slice's 25th percentile; survivors keep their power. */
  lemma SliceCutSpec(layer: seq<real>, scale: real, num: Numerics)
    requires SliceCut(layer, scale, num).Some?
    ensures forall i :: 0 <= i < |layer| ==>
      var t := SliceCut(layer, scale, num).value;
      var thresh := if scale > 35.0 then num.sqrt(scale) * 5.0 else num.sqrt(scale) * 2.0;
      && (t[i] != 0.0 <==> layer[i] != 0.0 && layer[i] >= thresh && !(layer[i] < num.pct25(Greater(layer, 1.0))))
      && (t[i] != 0.0 ==> t[i] == layer[i])
  {
  }

  /** Every slice that survives its cut is non-negative. */
  lemma CutSliceNonneg(layers: seq<seq<real>>, scales: seq<real>, num: Numerics, n: nat, k: nat)
    requires |scales| == |layers| && Layers(layers, n) && PercentileInRange(num)
    requires CutSlices(layers, scales, num, n).Some? && k < |layers|
    ensures forall i :: 0 <= i < n ==> CutSlices(layers, scales, num, n).value[k][i] >= 0.0
  {
    var m := AtLeast(layers[k], SliceThreshold(scales[k], num.sqrt));
    assert SliceCut(layers[k], scales[k], num) == Some(CutSlices(layers, scales, num, n).value[k]);
    CutSurvivors(layers[k], m, num);
  }

  /** The summed cut slices, zeroed where invalid, are non-negative and
      zero on every invalid pixel. */
  lemma SumCutNonneg(layers: seq<seq<real>>, scales: seq<real>, num: Numerics, n: nat, invalid: seq<bool>)
    requires |scales| == |layers| && Layers(layers, n) && PercentileInRange(num) && |invalid| == n
    requires CutSlices(layers, scales, num, n).Some?
    ensures
      var t := ZeroInvalid(SumLayers(CutSlices(layers, scales, num, n).value, n), invalid);
      forall i :: 0 <= i < n ==> t[i] >= 0.0 && (invalid[i] ==> t[i] == 0.0)
  {
    var cut := CutSlices(layers, scales, num, n).value;
    forall k | 0 <= k < |cut|
      ensures forall i :: 0 <= i < n ==> cut[k][i] >= 0.0
    {
      CutSliceNonneg(layers, scales, num, n, k);
    }
    SumLayersNonneg(cut, n);
  }

  /** The map of `sum` is the sum of the cut slices, zeroed where invalid,
      marked at the first coldest pixel of every component that passes the
      noise floor of the first scale. */
  lemma SumMarkers(s: Session, num: Numerics)
    requires Valid(s) && ColdWhereValid(s) && PercentileInRange(num)
    requires CutSlices(s.power, s.scales, num, |s.image|).Some?
    ensures
      var t := ZeroInvalid(SumLayers(CutSlices(s.power, s.scales, num, |s.image|).value, |s.image|), s.invalid);
      var r := FindPowerSum(s, num);
      r.Grid? && MarkedColdest(s.w, t, s.image, s.area, FirstScaleFloor(s, num), r.grid)
  {
    var n := |s.image|;
    var t := ZeroInvalid(SumLayers(CutSlices(s.power, s.scales, num, n).value, n), s.invalid);
    SumGrid(s, num);
    SumCutNonneg(s.power, s.scales, num, n, s.invalid);
    ColdestOnCut(s, t, FirstScaleFloor(s, num));
  }

  /** Once every slice is cut, `sum` marks the sum of the cuts. */
  lemma SumGrid(s: Session, num: Numerics)
    requires Valid(s) && CutSlices(s.power, s.scales, num, |s.image|).Some?
    ensures
      var t := ZeroInvalid(SumLayers(CutSlices(s.power, s.scales, num, |s.image|).value, |s.image|), s.invalid);
      FindPowerSum(s, num) == Grid(MarkColdest(s.w, t, s.image, s.area, FirstScaleFloor(s, num)))
  {
  }

  /** A band without scales makes `find_power_individual` return `None`. */
  lemma IndEmptyBand(s: Session, num: Numerics, wll: seq<seq<real>>, b: Band)
    requires Valid(s) && |wll| == |s.scales| && Layers(wll, |s.image|)
    requires |BandScales(s.scales, b)| == 0
    ensures FindPowerIndividual(s, num, wll) == NoneReturned(NoStrongPower)
  {
    EmptyBandWeak(s, num, wll, b);
  }

  /** The cut of one band: `None` exactly when no pixel of the band's
      power exceeds 1, and otherwise a pixel survives exactly when it is
      valid, has power, passes the band's mask and reaches the band's
      percentile. */
  lemma BandCutSpec(s: Session, num: Numerics, wll: seq<seq<real>>, b: Band)
    requires Valid(s) && |wll| == |s.scales| && Layers(wll, |s.image|)
    ensures BandCut(s, num, wll, b).None? <==> Weak(BandPower(s, wll, b))
    ensures BandCut(s, num, wll, b).Some? ==>
      var p := BandPower(s, wll, b);
      var pct := num.pct25(Greater(p, 1.0));
      forall i :: 0 <= i < |s.image| ==>
        (BandCut(s, num, wll, b).value[i] != 0.0 <==>
          !s.invalid[i] && p[i] != 0.0 && BandMask(s, num, wll, b)[i] && !(p[i] < pct))
  {
  }

  /** The band maps are non-negative and zero where invalid. */
  lemma BandCutNonneg(s: Session, num: Numerics, wll: seq<seq<real>>, b: Band)
    requires Valid(s) && |wll| == |s.scales| && Layers(wll, |s.image|) && PercentileInRange(num)
    requires BandCut(s, num, wll, b).Some?
    ensures forall i :: 0 <= i < |s.image| ==>
      BandCut(s, num, wll, b).value[i] >= 0.0 && (s.invalid[i] ==> BandCut(s, num, wll, b).value[i] == 0.0)
  {
    var p := BandPower(s, wll, b);
    var m := BandMask(s, num, wll, b);
    assert BandCut(s, num, wll, b) == Some(ZeroInvalid(PercentileCut(p, m, num).value, s.invalid));
    CutZeroInvalid(p, m, s.invalid, num);
  }

  /** Each band map of `ind` is its cut map marked with the band's own
      noise floor, the smallest scale of the band. */
  lemma IndMarkers(s: Session, num: Numerics, wll: seq<seq<real>>, b: Band)
    requires Valid(s) && |wll| == |s.scales| && Layers(wll, |s.image|)
    requires ColdWhereValid(s) && PercentileInRange(num)
    requires BandCut(s, num, wll, b).Some?
    ensures |BandScales(s.scales, b)| > 0
    ensures MarkedColdest(s.w, BandCut(s, num, wll, b).value, s.image, s.area, BandFloor(s, num, b), MarkBand(s, num, wll, b))
  {
    CutBandNonEmpty(s, num, wll, b);
    var t := BandCut(s, num, wll, b).value;
    BandCutNonneg(s, num, wll, b);
    ZeroInvalidKeeps(t, s.invalid);
    ColdestOnCut(s, t, BandFloor(s, num, b));
  }
}

/** Image preparation (`dataset.read_img`, cores.py:35-125) and the
    clip-and-demean step that `dataset.applyWavelet` applies before handing
    the field to the wavelet transform (cores.py:148-149).

    A raw pixel is a temperature in degrees Celsius or NaN. The prepared
    field holds no NaN: every pixel that read_img marks invalid is
    overwritten with one background temperature. */
module Preprocess {
  import opened Basics
  import opened Grids
  import opened Labelling

  datatype Sample = NaN | Obs(t: real)

  /** Pixels at or below this temperature are treated as missing. */
  const AbsoluteFloor: real := -150.0

  /** Marker read_img writes before turning wavelet-edge pixels into NaN. */
  const EdgeMarker: real := 150.0

  /** Background offset below the wavelet edge when it is not dynamic. */
  const DefaultOffset: real := 10.0

  /** `t[t >= Tcut] = 0` */
  function ZeroAtOrAbove(t: seq<Sample>, cut: real): (r: seq<Sample>)
    ensures |r| == |t|
  {
    seq(|t|, i requires 0 <= i < |t| => if t[i].Obs? && t[i].t >= cut then Obs(0.0) else t[i])
  }

  /** `t[t <= -150] = 0` */
  function ZeroAtOrBelow(t: seq<Sample>, floor: real): (r: seq<Sample>)
    ensures |r| == |t|
  {
    seq(|t|, i requires 0 <= i < |t| => if t[i].Obs? && t[i].t <= floor then Obs(0.0) else t[i])
  }

  /** `t[np.isnan(t)] = 0` */
  function ZeroNaN(t: seq<Sample>): (r: seq<real>)
    ensures |r| == |t|
  {
    seq(|t|, i requires 0 <= i < |t| => if t[i].NaN? then 0.0 else t[i].t)
  }

  /** The cloud mask of cores.py:59-61: a pixel becomes 0 exactly when it is
      NaN, at or above the cloud edge, at or below -150, or already 0; every
      other pixel keeps its temperature. */
  function CloudMask(raw: seq<Sample>, tcut: real): (m: seq<real>)
    ensures |m| == |raw|
    ensures forall i :: 0 <= i < |raw| ==>
      (m[i] == 0.0 <==> raw[i].NaN? || raw[i].t >= tcut || raw[i].t <= AbsoluteFloor || raw[i].t == 0.0)
    ensures forall i :: 0 <= i < |raw| && m[i] != 0.0 ==> raw[i] == Obs(m[i])
  {
    ZeroNaN(ZeroAtOrBelow(ZeroAtOrAbove(raw, tcut), AbsoluteFloor))
  }

  /** The minimum cloud size in pixels, `pix_nb` (cores.py:70-79). The
      resolution is the dataset's integer grid spacing `dx`. A non-zero
      `minArea` is an area in squared resolution units; zero stands for
      Python's falsy `min_area=False` and selects a disc three pixels across,
      which is 9 pi pixels whatever the resolution. */
  function MinPixels(minArea: real, res: nat, pi: real): (pixNb: real)
    requires res > 0
    ensures minArea != 0.0 ==> pixNb * (res * res) as real == minArea
    ensures minArea == 0.0 ==> pixNb == 9.0 * pi
  {
    var minDiameter := 3 * res;
    var minCloud := if minArea != 0.0 then minArea else pi * (minDiameter * minDiameter) as real;
    DiscPixels(res, pi);
    minCloud / (res * res) as real
  }

  /** A disc three pixels across covers 9 pi pixels at any resolution. */
  lemma DiscPixels(res: nat, pi: real)
    requires res > 0
    ensures (pi * ((3 * res) * (3 * res)) as real) / (res * res) as real == 9.0 * pi
  {
    assert res * res > 0;
    assert (3 * res) * (3 * res) == 9 * (res * res);
    DivCancel(9.0 * pi, (res * res) as real);
  }

  lemma DivCancel(a: real, b: real)
    requires b != 0.0
    ensures (a * b) / b == a
  {
  }

  datatype Filtered = Filtered(outt: seq<real>, area: seq<real>)

  /** The area filter of cores.py:81-90. Every label, the background label 0
      included, is kept when its pixel count reaches `pixNb` and dropped
      otherwise: a dropped label's pixels become 0 in `outt`, a kept
      label's pixels receive the count in `area`. */
  function AreaFilter(masked: seq<real>, lab: seq<nat>, pixNb: real): (f: Filtered)
    requires |lab| == |masked|
    ensures |f.outt| == |masked| && |f.area| == |masked|
  {
    Filtered(
      seq(|masked|, i requires 0 <= i < |masked| =>
        if (Count(lab, lab[i]) as real) < pixNb then 0.0 else masked[i]),
      seq(|masked|, i requires 0 <= i < |masked| =>
        if (Count(lab, lab[i]) as real) >= pixNb then Count(lab, lab[i]) as real else 0.0))
  }

  /** `outt[outt >= Twav] = 150` */
  function MarkEdge(outt: seq<real>, twav: real): (r: seq<real>)
    ensures |r| == |outt|
  {
    seq(|outt|, i requires 0 <= i < |outt| => if outt[i] >= twav then EdgeMarker else outt[i])
  }

  /** `outt[outt == 150] = nan; invalid = np.isnan(outt)` */
  function InvalidMask(marked: seq<real>): (inv: seq<bool>)
    ensures |inv| == |marked|
  {
    seq(|marked|, i requires 0 <= i < |marked| => marked[i] == EdgeMarker)
  }

  /** `xmin` of cores.py:100-104. Under the dynamic background it is half
      the spread of the temperatures that are not invalid; `None` when every
      pixel is invalid (numpy's `nanmax` of an all-NaN field is NaN). */
  function BackgroundOffset(outt: seq<real>, invalid: seq<bool>, dynamic: bool): (x: Option<real>)
    requires |invalid| == |outt|
    ensures !dynamic ==> x == Some(DefaultOffset)
    ensures dynamic ==> (x.None? <==> forall i :: 0 <= i < |outt| ==> invalid[i])
    ensures dynamic && x.Some? ==>
      exists hi, lo :: Brackets(outt, invalid, lo, hi) && x.value == 0.5 * (outt[hi] - outt[lo])
  {
    if !dynamic then Some(DefaultOffset)
    else
      var valid := Unflagged(outt, invalid);
      if |valid| == 0 then None
      else
        ValidSpread(outt, invalid);
        Some(0.5 * (MaxOf(valid) - MinOf(valid)))
  }

  /** `lo` and `hi` are valid pixels holding the coldest and the warmest
      valid temperature. */
  predicate Brackets(outt: seq<real>, invalid: seq<bool>, lo: int, hi: int)
    requires |invalid| == |outt|
  {
    && 0 <= lo < |outt| && 0 <= hi < |outt| && !invalid[lo] && !invalid[hi]
    && forall k :: 0 <= k < |outt| && !invalid[k] ==> outt[lo] <= outt[k] <= outt[hi]
  }

  /** The warmest and the coldest valid temperature are each taken at a
      valid pixel, and bound every valid temperature. */
  lemma ValidSpread(outt: seq<real>, invalid: seq<bool>)
    requires |invalid| == |outt| && |Unflagged(outt, invalid)| > 0
    ensures exists hi, lo :: (Brackets(outt, invalid, lo, hi)
      && MaxOf(Unflagged(outt, invalid)) == outt[hi] && MinOf(Unflagged(outt, invalid)) == outt[lo])
  {
    var valid := Unflagged(outt, invalid);
    var top := MaxOf(valid);
    var bottom := MinOf(valid);
    assert top in valid && bottom in valid;
    var hi :| 0 <= hi < |outt| && !invalid[hi] && outt[hi] == top;
    var lo :| 0 <= lo < |outt| && !invalid[lo] && outt[lo] == bottom;
    forall k | 0 <= k < |outt| && !invalid[k]
      ensures bottom <= outt[k] <= top
    {
      assert outt[k] in valid;
    }
    assert Brackets(outt, invalid, lo, hi);
  }

  /** `outt[invalid] = value` */
  function FillInvalid(outt: seq<real>, invalid: seq<bool>, value: real): (r: seq<real>)
    requires |invalid| == |outt|
    ensures |r| == |outt|
  {
    seq(|outt|, i requires 0 <= i < |outt| => if invalid[i] then value else outt[i])
  }

  datatype Prepared = Prepared(image: seq<real>, area: seq<real>, invalid: seq<bool>, minPixel: real)

  datatype ReadResult =
    | Ready(prep: Prepared)
    | EmptyImage      // numpy's nanmin on an empty grid raises (cores.py:63)
    | GridTooSmall    // np.gradient raises on an axis shorter than 2 (cores.py:94)
    | NaNBackground   // dynamic background with every pixel invalid

  /** The stages of read_img up to the area filter, shared by `ReadImg` and
      the lemmas about it. */
  function Filter(raw: seq<Sample>, w: nat, tcut: real, res: nat, minArea: real, pi: real): (f: Filtered)
    requires res > 0
    ensures |f.outt| == |raw| && |f.area| == |raw|
  {
    var masked := CloudMask(raw, tcut);
    var lab := Label(w, Nonzero(masked));
    AreaFilter(masked, lab, MinPixels(minArea, res, pi))
  }

  /** `dataset.read_img` without the longitude check, the prints and the
      optional edge smoothing. `w` is the grid width; `pi` stands for
      `np.pi`. The gradient is always taken, so a grid with fewer than two
      rows or two columns fails even when it is never used. */
  function ReadImg(raw: seq<Sample>, w: nat, tcut: real, twav: real, res: nat,
                   dynamic: bool, minArea: real, pi: real): (r: ReadResult)
    requires res > 0
    ensures r.EmptyImage? <==> |raw| == 0
    ensures r.GridTooSmall? <==> |raw| > 0 && (w < 2 || |raw| < 2 * w)
    ensures r.NaNBackground? ==> dynamic
    ensures r.Ready? ==>
      && |r.prep.image| == |raw| && |r.prep.area| == |raw| && |r.prep.invalid| == |raw|
      && r.prep.minPixel == MinPixels(minArea, res, pi)
    ensures r.Ready? && !dynamic ==>
      forall i :: 0 <= i < |raw| && r.prep.invalid[i] ==> r.prep.image[i] == twav - DefaultOffset
  {
    if |raw| == 0 then EmptyImage
    else if w < 2 || |raw| < 2 * w then GridTooSmall
    else
      var f := Filter(raw, w, tcut, res, minArea, pi);
      var invalid := InvalidMask(MarkEdge(f.outt, twav));
      match BackgroundOffset(f.outt, invalid, dynamic)
      case None => NaNBackground
      case Some(xmin) =>
        Ready(Prepared(FillInvalid(f.outt, invalid, twav - xmin), f.area, invalid, MinPixels(minArea, res, pi)))
  }

  /** cores.py:93-97: a pixel is invalid exactly when its filtered value is
      at or above the wavelet edge or equal to the 150 marker; with the edge
      at or below 150 that is exactly "at or above the edge". */
  lemma InvalidExactly(outt: seq<real>, twav: real)
    ensures forall i :: 0 <= i < |outt| ==>
      (InvalidMask(MarkEdge(outt, twav))[i] <==> outt[i] >= twav || outt[i] == EdgeMarker)
    ensures twav <= EdgeMarker ==> forall i :: 0 <= i < |outt| ==>
      (InvalidMask(MarkEdge(outt, twav))[i] <==> outt[i] >= twav)
  {
  }

  /** The prepared field: each invalid pixel holds the background
      `twav - xmin` and every other pixel its filtered value, below the
      wavelet edge. With a negative edge every pixel that masking or the area
      filter zeroed is invalid, and every valid pixel is an observed
      temperature below the edge. */
  lemma ReadImgFill(raw: seq<Sample>, w: nat, tcut: real, twav: real, res: nat,
                    dynamic: bool, minArea: real, pi: real)
    requires res > 0
    requires ReadImg(raw, w, tcut, twav, res, dynamic, minArea, pi).Ready?
    ensures
      var f := Filter(raw, w, tcut, res, minArea, pi);
      var p := ReadImg(raw, w, tcut, twav, res, dynamic, minArea, pi).prep;
      && (forall i :: 0 <= i < |raw| ==> (p.invalid[i] <==> f.outt[i] >= twav || f.outt[i] == EdgeMarker))
      && (exists x :: BackgroundOffset(f.outt, p.invalid, dynamic) == Some(x)
            && forall i :: 0 <= i < |raw| && p.invalid[i] ==> p.image[i] == twav - x)
      && (forall i :: 0 <= i < |raw| && !p.invalid[i] ==> p.image[i] == f.outt[i] < twav)
      && (twav < 0.0 ==> forall i :: 0 <= i < |raw| && f.outt[i] == 0.0 ==> p.invalid[i])
      && (twav < 0.0 ==> forall i :: 0 <= i < |raw| && !p.invalid[i] ==> raw[i] == Obs(p.image[i]))
  {
    var f := Filter(raw, w, tcut, res, minArea, pi);
    var masked := CloudMask(raw, tcut);
    var p := ReadImg(raw, w, tcut, twav, res, dynamic, minArea, pi).prep;
    InvalidExactly(f.outt, twav);
    var x := BackgroundOffset(f.outt, p.invalid, dynamic).value;
    assert forall i :: 0 <= i < |raw| ==> f.outt[i] == 0.0 || f.outt[i] == masked[i];
  }

  /** The 4-connected cloud that pixel `i` belongs to. */
  ghost function Cloud(w: nat, fg: seq<bool>, i: nat): set<nat>
  {
    set j | 0 <= j < |fg| && fg[j] && Connected(w, fg, i, j)
  }

  /** The non-cloud pixels. */
  function Clear(fg: seq<bool>): set<nat>
  {
    set j | 0 <= j < |fg| && !fg[j]
  }

  /** The pixel count of a cloud pixel's label is the size of its cloud. */
  lemma CloudSize(w: nat, fg: seq<bool>, i: nat)
    requires i < |fg| && fg[i]
    ensures Count(Label(w, fg), Label(w, fg)[i]) == |Cloud(w, fg, i)|
  {
    var lab := Label(w, fg);
    LabelSharedByComponent(w, fg, i);
    CountIsCard(lab, lab[i]);
    var same := set j | 0 <= j < |lab| && lab[j] == lab[i];
    forall j | j in Cloud(w, fg, i) ensures j in same {
      assert Connected(w, fg, i, j);
    }
    assert same == Cloud(w, fg, i) by {
      forall j | j in same ensures j in Cloud(w, fg, i) {
        ConnectedEnds(w, fg, i, j);
      }
    }
  }

  /** The pixel count of label 0 is the number of non-cloud pixels. */
  lemma ClearSize(w: nat, fg: seq<bool>)
    ensures Count(Label(w, fg), 0) == |Clear(fg)|
  {
    var lab := Label(w, fg);
    LabelBackground(w, fg);
    CountIsCard(lab, 0);
    assert (set j | 0 <= j < |lab| && lab[j] == 0) == Clear(fg);
  }

  /** The area filter against the labelling of the cloud mask: a cloud
      pixel gets the size of its cloud when that reaches `pixNb`, otherwise
      its whole cloud is erased and its area is 0; a non-cloud pixel gets
      the number of non-cloud pixels when that reaches `pixNb`. */
  lemma AreaFilterConsistent(w: nat, masked: seq<real>, pixNb: real, i: nat)
    requires i < |masked|
    ensures
      var fg := Nonzero(masked);
      var f := AreaFilter(masked, Label(w, fg), pixNb);
      && (fg[i] && (|Cloud(w, fg, i)| as real) >= pixNb ==>
            f.area[i] == |Cloud(w, fg, i)| as real && f.outt[i] == masked[i])
      && (fg[i] && (|Cloud(w, fg, i)| as real) < pixNb ==>
            f.area[i] == 0.0 && forall j :: j in Cloud(w, fg, i) ==> f.outt[j] == 0.0)
      && (!fg[i] ==> f.area[i] == if (|Clear(fg)| as real) >= pixNb then |Clear(fg)| as real else 0.0)
  {
    var fg := Nonzero(masked);
    var lab := Label(w, fg);
    if fg[i] {
      CloudSize(w, fg, i);
      LabelSharedByComponent(w, fg, i);
      forall j | j in Cloud(w, fg, i) ensures Count(lab, lab[j]) == Count(lab, lab[i]) {
        assert lab[j] == lab[i];
      }
    } else {
      ClearSize(w, fg);
      LabelBackground(w, fg);
      assert lab[i] == 0;
    }
  }

  /** Area-map consistency of read_img (cores.py:64-90), with scipy's
      labelling replaced by `Label`. */
  lemma AreaMapConsistent(raw: seq<Sample>, w: nat, tcut: real, res: nat, minArea: real, pi: real, i: nat)
    requires res > 0
    requires i < |raw|
    ensures
      var masked := CloudMask(raw, tcut);
      var fg := Nonzero(masked);
      var f := Filter(raw, w, tcut, res, minArea, pi);
      var pixNb := MinPixels(minArea, res, pi);
      && (fg[i] && (|Cloud(w, fg, i)| as real) >= pixNb ==>
            f.area[i] == |Cloud(w, fg, i)| as real && f.outt[i] == masked[i])
      && (fg[i] && (|Cloud(w, fg, i)| as real) < pixNb ==>
            f.area[i] == 0.0 && forall j :: j in Cloud(w, fg, i) ==> f.outt[j] == 0.0)
      && (!fg[i] ==> f.area[i] == if (|Clear(fg)| as real) >= pixNb then |Clear(fg)| as real else 0.0)
  {
    AreaFilterConsistent(w, CloudMask(raw, tcut), MinPixels(minArea, res, pi), i);
  }

  /** `tir[tir > 0] = 0` */
  function ClipPositive(s: seq<real>): (r: seq<real>)
    ensures |r| == |s|
  {
    seq(|s|, i requires 0 <= i < |s| => Min(s[i], 0.0))
  }

  /** `tir - np.mean(tir)` */
  function Demean(s: seq<real>): (r: seq<real>)
    ensures |r| == |s|
    ensures Sum(r) == 0.0
    ensures forall i, j :: 0 <= i < |s| && 0 <= j < |s| ==> r[i] - r[j] == s[i] - s[j]
  {
    if |s| == 0 then []
    else
      var mean := Sum(s) / (|s| as real);
      var r := seq(|s|, i requires 0 <= i < |s| => s[i] - mean);
      SumShift(s, r, mean);
      r
  }

  /** The field the wavelet transform receives (cores.py:148-149): positive
      temperatures clipped to 0, then demeaned. With exact reals it sums to
      0, keeps the order of the pixels, and maps all non-negative pixels to
      one value. */
  function ClipDemean(s: seq<real>): (r: seq<real>)
    ensures |r| == |s|
    ensures Sum(r) == 0.0
    ensures forall i, j :: 0 <= i < |s| && 0 <= j < |s| && s[i] <= s[j] ==> r[i] <= r[j]
    ensures forall i, j :: 0 <= i < |s| && 0 <= j < |s| && s[i] >= 0.0 && s[j] >= 0.0 ==> r[i] == r[j]
  {
    var c := ClipPositive(s);
    assert forall i :: 0 <= i < |s| ==> c[i] == Min(s[i], 0.0);
    Demean(c)
  }
}

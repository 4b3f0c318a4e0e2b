/** The `dataset` object of cores.py around the two modules it drives: the
    setup table and the constructor's name lookup, the hand-over from
    `read_img` to the strategies, the clip-and-demean step of
    `applyWavelet`, and the `scaleWeighting` dispatch. The wavelet module
    itself is not part of this model: its scale list and its transform are
    parameters. */
module Dataset {
  import opened Basics
  import opened Labelling
  import opened Preprocess
  import opened Components
  import opened Marking
  import opened Strategies

  /* ---------------------------------------------------------------
     Setup table and constructor
     --------------------------------------------------------------- */

  /** One entry of the setup table: cloud edge `Tcut` and wavelet edge
      `Twav` in degrees Celsius, grid spacing `dx` in km, scale spacing
      `dist`, first scale `start` in km and number of scales `nb`. */
  datatype Setup = Setup(tcut: real, twav: real, dx: nat, dist: real, start: nat, nb: nat)

  /** `NAMES` (constants.py:24-32). */
  const Names: map<string, Setup> := map[
    "METEOSAT5K" := Setup(-40.0, -50.0, 5, 1.0 / 12.0, 15, 45),
    "METEOSAT5K_vera" := Setup(-40.0, -50.0, 5, 0.5, 25, 2),
    "METEOSAT5K_veraLS" := Setup(-40.0, -50.0, 5, 0.5, 25, 4),
    "METEOSAT3K_veraLS" := Setup(-40.0, -50.0, 3, 0.6, 12, 6),
    "METEOSAT8K" := Setup(-40.0, -50.0, 8, 1.0 / 12.0, 24, 40),
    "METEOSAT10K" := Setup(-40.0, -50.0, 10, 1.0 / 12.0, 30, 40),
    "GRIDSAT" := Setup(-40.0, -50.0, 8, 1.0 / 12.0, 24, 40)
  ]

  /** Every setup has a positive grid spacing, at least one scale, and a
      wavelet edge below a cloud edge below 0 degrees: the conditions
      under which `read_img` and the strategies work as this model
      describes. */
  lemma NamesUsable()
    ensures forall name :: name in Names ==>
      && Names[name].dx > 0 && Names[name].nb > 0 && Names[name].dist > 0.0
      && Names[name].twav < Names[name].tcut < 0.0
  {
  }

  /** The attributes `dataset.__init__` sets. */
  datatype Dataset = Dataset(name: string, res: nat, dist: real, nb: nat, start: nat,
                             tcut: real, twav: real, scales: seq<real>)

  /** The setup a dataset was built from. */
  function SetupOf(d: Dataset): Setup
  {
    Setup(d.tcut, d.twav, d.res, d.dist, d.start, d.nb)
  }

  /** `dataset(dataname)` (cores.py:10-31). `scalesOf(dx, dist, nb, start)`
      stands for the scale list of the wavelet module. `None` is the object
      left without attributes when the name is not in the table. */
  function Init(name: string, scalesOf: (nat, real, nat, nat) -> seq<real>): (d: Option<Dataset>)
    ensures d.None? <==> name !in Names
    ensures d.Some? ==> d.value.name == name && SetupOf(d.value) == Names[name]
    ensures d.Some? ==> d.value.scales == scalesOf(d.value.res, d.value.dist, d.value.nb, d.value.start)
  {
    if name !in Names then None
    else
      var dic := Names[name];
      Some(Dataset(name, dic.dx, dic.dist, dic.nb, dic.start, dic.tcut, dic.twav,
                   scalesOf(dic.dx, dic.dist, dic.nb, dic.start)))
  }

  /** A constructed dataset carries its table entry unchanged, and its
      resolution and edges satisfy what `read_img` needs. */
  lemma InitUsable(name: string, scalesOf: (nat, real, nat, nat) -> seq<real>)
    requires Init(name, scalesOf).Some?
    ensures Init(name, scalesOf).value.res > 0
    ensures Init(name, scalesOf).value.twav < Init(name, scalesOf).value.tcut < 0.0
  {
    NamesUsable();
    assert name in Names;
  }

  /* ---------------------------------------------------------------
     From read_img to the strategies
     --------------------------------------------------------------- */

  /** The fields the strategies read: the prepared image, area map and
      invalid mask of `read_img`, the power stack of `applyWavelet`, the
      dataset's scales and resolution, and the `data_tag` of
      `scaleWeighting`. */
  function SessionOf(d: Dataset, w: nat, prep: Prepared, power: seq<seq<real>>, coords: Coords, dataTag: string): Session
  {
    Session(w, prep.image, prep.area, prep.invalid, power, d.scales, d.res, coords, dataTag)
  }

  /** A pixel that survives the area filter has a positive area: its own
      label's count, which includes itself. */
  lemma FilteredArea(masked: seq<real>, lab: seq<nat>, pixNb: real, i: nat)
    requires |lab| == |masked| && i < |masked|
    requires AreaFilter(masked, lab, pixNb).outt[i] != 0.0
    ensures AreaFilter(masked, lab, pixNb).area[i] > 0.0
  {
    CountPositive(lab, lab[i]);
  }

  /** With a negative wavelet edge, every pixel that `read_img` leaves valid
      is below the edge and lies in a cloud that passed the area filter:
      exactly the situation in which the arg-min strategies put each marker
      inside its component. */
  lemma PreparedIsCold(d: Dataset, raw: seq<Sample>, w: nat, dynamic: bool, minArea: real, pi: real,
                       power: seq<seq<real>>, coords: Coords, dataTag: string)
    requires d.res > 0 && d.twav < 0.0
    requires ReadImg(raw, w, d.tcut, d.twav, d.res, dynamic, minArea, pi).Ready?
    ensures
      var prep := ReadImg(raw, w, d.tcut, d.twav, d.res, dynamic, minArea, pi).prep;
      ColdWhereValid(SessionOf(d, w, prep, power, coords, dataTag))
  {
    var prep := ReadImg(raw, w, d.tcut, d.twav, d.res, dynamic, minArea, pi).prep;
    var f := Filter(raw, w, d.tcut, d.res, minArea, pi);
    ReadImgFill(raw, w, d.tcut, d.twav, d.res, dynamic, minArea, pi);
    forall i | 0 <= i < |raw| && !prep.invalid[i]
      ensures prep.area[i] > 0.0
    {
      var masked := CloudMask(raw, d.tcut);
      FilteredArea(masked, Label(w, Nonzero(masked)), MinPixels(minArea, d.res, pi), i);
    }
  }

  /* ---------------------------------------------------------------
     applyWavelet
     --------------------------------------------------------------- */

  datatype Applied =
    | Transformed(coeffs: seq<seq<real>>, power: seq<seq<real>>)
    | NoImage          // the message and early return of the `except` branch
    | AttributeRaised  // an `AttributeError` escaping `applyWavelet`

  /** `applyWavelet` as written (cores.py:139-160). `image` is `None` when
      `read_img` has not set `self.image`; `transform` stands for
      `calc_coeffs` and returns the coefficients and the power. Reading a
      missing attribute raises `AttributeError`, which the
      `except NameError` clause does not catch. */
  function ApplyWaveletAsWritten(image: Option<seq<real>>, transform: seq<real> -> (seq<seq<real>>, seq<seq<real>>)): (r: Applied)
    ensures r.NoImage? ==> image.None?
    ensures r.Transformed? <==> image.Some?
  {
    match image
    case None => AttributeRaised
    case Some(img) =>
      var out := transform(ClipDemean(img));
      Transformed(out.0, out.1)
  }

  /** The guard of `applyWavelet` never takes its own branch: a dataset
      without an image escapes with `AttributeError` instead of the
      message and `None`. */
  lemma MissingImageEscapes(transform: seq<real> -> (seq<seq<real>>, seq<seq<real>>))
    ensures ApplyWaveletAsWritten(None, transform) == AttributeRaised
    ensures !ApplyWaveletAsWritten(None, transform).NoImage?
  {
  }

  /** `applyWavelet` as its guard intends: a missing image returns `None`;
      otherwise the image is clipped at 0, demeaned and transformed. */
  function ApplyWavelet(image: Option<seq<real>>, transform: seq<real> -> (seq<seq<real>>, seq<seq<real>>)): (r: Applied)
    ensures r.NoImage? <==> image.None?
    ensures r.Transformed? <==> image.Some?
  {
    match image
    case None => NoImage
    case Some(img) =>
      var out := transform(ClipDemean(img));
      Transformed(out.0, out.1)
  }

  /** With an image both versions agree; without one only the intended
      version returns. The field handed to the transform has zero sum,
      keeps the order of the pixels, and flattens everything at or above
      0 degrees to one value. */
  lemma ApplyWaveletAgrees(image: Option<seq<real>>, transform: seq<real> -> (seq<seq<real>>, seq<seq<real>>))
    ensures image.Some? ==> ApplyWavelet(image, transform) == ApplyWaveletAsWritten(image, transform)
    ensures image.None? ==> ApplyWavelet(image, transform) == NoImage && ApplyWaveletAsWritten(image, transform) == AttributeRaised
    ensures image.Some? ==>
      var tir := ClipDemean(image.value);
      && ApplyWavelet(image, transform) == Transformed(transform(tir).0, transform(tir).1)
      && Sum(tir) == 0.0
      && (forall i, j :: 0 <= i < |tir| && 0 <= j < |tir| && image.value[i] <= image.value[j] ==> tir[i] <= tir[j])
  {
  }

  /* ---------------------------------------------------------------
     scaleWeighting
     --------------------------------------------------------------- */

  /** The keys of `UTILS` (constants.py:36-43). */
  const Utils: set<string> := {"sum", "ind", "nflics", "nflics3k", "nflicsv2", "dominant"}

  /** What `scaleWeighting` leaves behind. */
  datatype Dispatch =
    | MethodNotFound
    | Raised(tagged: Session)
    | Returned(tagged: Session, scaleWeighted: Weighted, maxPos: Option<MaxPos>)

  /** What each registered strategy needs of the session. `wll` is the
      standardised power stack that `ind` computes for itself; `dominant`
      stands for `find_power_dominant`, which is not part of this model. */
  predicate Ready(wtype: string, s: Session, wll: seq<seq<real>>)
  {
    && Valid(s)
    && (wtype == "ind" ==> |wll| == |s.scales| && Layers(wll, |s.image|))
    && (wtype == "nflics3k" ==> CoordsFit(s.coords, s.w, |s.image|))
  }

  /** `constants.UTILS[wtype](self)`. */
  function Strategy(wtype: string, s: Session, num: Numerics, wll: seq<seq<real>>,
                    dominant: Session -> seq<real>): (r: Weighted)
    requires wtype in Utils && Ready(wtype, s, wll)
    ensures r.GridAndCores? ==> wtype == "nflics3k"
    ensures r.ValueError? ==> wtype == "nflicsv2"
    ensures r.Bands? <==> wtype == "ind" && IndCuts(s, num, wll).Some?
  {
    if wtype == "sum" then FindPowerSum(s, num)
    else if wtype == "ind" then FindPowerIndividual(s, num, wll)
    else if wtype == "nflics" then FindPowerNflics(s, num)
    else if wtype == "nflics3k" then FindPowerNflics3k(s, num)
    else if wtype == "nflicsv2" then FindPowerNflicsV2(s, num)
    else Grid(dominant(s))
  }

  /** `dataset.scaleWeighting(wtype, data_tag)` (cores.py:163-183). An
      unknown method leaves the object untouched; otherwise `data_tag` is
      stored before the strategy runs, an exception of the strategy escapes,
      and a tuple result is split into `scale_weighted` and `max_pos`. */
  function ScaleWeighting(s: Session, wtype: string, dataTag: string, num: Numerics, wll: seq<seq<real>>,
                          dominant: Session -> seq<real>): (r: Dispatch)
    requires wtype in Utils ==> Ready(wtype, s, wll)
    ensures r.MethodNotFound? <==> wtype !in Utils
    ensures !r.MethodNotFound? ==> r.tagged == s.(dataTag := dataTag)
    ensures r.Raised? <==> wtype in Utils && Strategy(wtype, s.(dataTag := dataTag), num, wll, dominant).ValueError?
    ensures r.Returned? ==>
      var out := Strategy(wtype, s.(dataTag := dataTag), num, wll, dominant);
      && (r.maxPos.Some? <==> out.GridAndCores?)
      && (r.maxPos.Some? ==> r.scaleWeighted.Grid? && out == GridAndCores(r.scaleWeighted.grid, r.maxPos.value))
      && (r.maxPos.None? ==> r.scaleWeighted == out)
  {
    if wtype !in Utils then MethodNotFound
    else
      var tagged := s.(dataTag := dataTag);
      match Strategy(wtype, tagged, num, wll, dominant)
      case ValueError => Raised(tagged)
      case GridAndCores(grid, cores) => Returned(tagged, Grid(grid), Some(cores))
      case out => Returned(tagged, out, None)
  }

  /** Only `nflics3k` returns a tuple, so only it sets `max_pos`. */
  lemma OnlyNflics3kSplits(s: Session, wtype: string, dataTag: string, num: Numerics, wll: seq<seq<real>>,
                           dominant: Session -> seq<real>)
    requires wtype in Utils ==> Ready(wtype, s, wll)
    requires ScaleWeighting(s, wtype, dataTag, num, wll, dominant).Returned?
    ensures ScaleWeighting(s, wtype, dataTag, num, wll, dominant).maxPos.Some? ==> wtype == "nflics3k"
    ensures wtype == "nflics3k" && ScaleWeighting(s, wtype, dataTag, num, wll, dominant).scaleWeighted.Grid? ==>
      ScaleWeighting(s, wtype, dataTag, num, wll, dominant).maxPos.Some?
  {
  }

  /** The `data_tag` given to `scaleWeighting` is the one `nflics` reads:
      an unknown tag makes `nflics` return `None`, whatever the session
      carried before. */
  lemma NflicsSeesDataTag(s: Session, dataTag: string, num: Numerics, wll: seq<seq<real>>,
                          dominant: Session -> seq<real>)
    requires Valid(s)
    ensures
      var r := ScaleWeighting(s, "nflics", dataTag, num, wll, dominant);
      r.Returned? && (r.scaleWeighted == NoneReturned(UnknownTag) <==> Correction(dataTag).None?)
  {
  }
}

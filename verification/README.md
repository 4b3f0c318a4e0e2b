# ccores core-detection model

A Dafny model of the convective-core pipeline of `ccores`. The pipeline has
four stages:

1. A `dataset` is set up from a named configuration.
2. `read_img` reads a brightness-temperature image. It keeps cold clouds of a
   minimum size and fills the rest with a background temperature.
3. `applyWavelet` clips and demeans the image before the 2-D wavelet
   transform.
4. `scaleWeighting` dispatches to one of the power-weighting strategies of
   `powerUtils.py`:
   - `find_power_nflics` marks the strongest pixel of every core;
   - `find_power_nflics3k` removes noise-sized cores and collects core
     coordinates;
   - `find_power_nflicsv2` thresholds small and large scales;
   - `find_power_sum` thresholds each scale slice;
   - `find_power_individual` works on three scale bands.

   The last three mark the coldest pixel of every core with its negated
   cloud area.

Images are row-major sequences of `real` with a row width `w`. Pixels are
4-connected, as in `scipy.ndimage.label` with its default structure.
Connectivity is defined through paths (`Grids`). The labelling used by every
stage (`Labelling.Label`) is implemented by minimum propagation to a
fixpoint, and is proved to be a connected-component labelling. A pixel's
label is one more than the first row-major index of its component. scipy
numbers components 1, 2, … in the same order, so a loop over the labels in
increasing order visits the components in the same order as the source
does.

Each strategy's per-label loop (`for inds in u`) is a fold over the labels
(`Components.SweepMin`, `SweepMax`, `Sweep3k`). The fold is faithful to
what the loop does to pixels it already changed. For the maps the
strategies actually produce, it is proved equal to a per-component
description stated with connectivity and component sizes alone
(`Marking.MarkedColdest`, `MarkedStrongest`, `MarkedCores`).

The source's default arguments are not parameters with defaults here:
every call states them. They are `wtype='sum'` and `data_tag='MSG'` for
`scaleWeighting` (cores.py:162), and `edge_smoothing=False`,
`dynamic_background=False` and `min_area=False` for `read_img`
(cores.py:35). `min_area=False` is passed to `ReadImg` as `minArea = 0.0`.

Modules:
- `Basics`: sums, arg-min and arg-max, counting, `Option`.
- `Grids`: adjacency, paths, connectivity.
- `Labelling`: component labelling.
- `Preprocess`: `read_img` and the clip/demean of `applyWavelet`.
- `Components`: the per-label loops.
- `Marking`: the percentile cut, and the loops described per component.
- `Strategies`: the five power-weighting strategies.
- `Dataset`: dataset set-up, `applyWavelet`, `scaleWeighting`.

## Model

| member | source | states |
|---|---|---|
| Dataset.Init | cores.py:10-31 | construction yields a dataset exactly when the name is a key of `NAMES`; the dataset then carries that entry's cut, wavelet edge, resolution, spacing, start and count, and the scales the wavelet object computes from them |
| Dataset.NamesUsable | constants.py:24-32 | every configured dataset has positive resolution, scale count and spacing, and a wavelet edge colder than a cloud edge below 0 °C |
| Dataset.InitUsable | cores.py:13-24 | a dataset that was found has a positive resolution and `Twav < Tcut < 0` |
| Preprocess.CloudMask | cores.py:59-61 | a pixel becomes 0 exactly when it is missing, at or above the cloud edge, at or below -150, or already 0; every other pixel keeps its observed temperature |
| Preprocess.MinPixels | cores.py:69-79 | with a minimum area given, the pixel threshold times the pixel area equals that area; without one, it is the pixel count of a disc three pixels across (9π) |
| Preprocess.AreaMapConsistent | cores.py:64-90 | for every pixel of a cloud, when the cloud's pixel count reaches the threshold, the area map holds that count and the temperature is kept; otherwise the area is 0 and the whole cloud is zeroed; a clear pixel gets the clear-sky pixel count when that count reaches the threshold, else 0 |
| Preprocess.AreaFilterConsistent | cores.py:81-90 | the same three cases, stated for the area filter on any masked image |
| Preprocess.CloudSize | cores.py:64-67 | the number of pixels sharing a cloud pixel's label is the size of its connected cloud |
| Preprocess.ClearSize | cores.py:64-67 | the number of pixels with label 0 is the number of clear pixels |
| Preprocess.InvalidExactly | cores.py:93-97 | a pixel is invalid exactly when it was at or above the wavelet edge or already held the marker value 150; with `Twav <= 150`, exactly when it was at or above the wavelet edge |
| Preprocess.BackgroundOffset | cores.py:100-104 | without a dynamic background the offset is 10; with one, it is half the range of the valid temperatures, taken between a valid coldest and a valid warmest pixel, and it is undefined exactly when every pixel is invalid |
| Preprocess.ReadImg | cores.py:35-125 | an empty image is refused; a non-empty grid with fewer than two rows or two columns fails at the gradient; only a dynamic background can have no valid pixel; a prepared image keeps the grid size and the pixel threshold; with the fixed background, invalid pixels hold `Twav - 10` |
| Preprocess.ReadImgFill | cores.py:93-106 | in a prepared image, invalid pixels hold `Twav` minus the background offset; valid pixels keep the filtered temperature, which is below `Twav`; with `Twav < 0`, every clear pixel is invalid and every valid pixel is an observed cold temperature |
| Preprocess.Demean | cores.py:149 | the demeaned image sums to 0 and keeps every pairwise difference |
| Preprocess.ClipDemean | cores.py:148-149 | the clipped, demeaned image sums to 0, preserves the temperature order, and maps all pixels at or above 0 °C to one value |
| Dataset.ApplyWaveletAsWritten | cores.py:137-160 | as written: with an image, the transform of the clipped, demeaned image is stored; without one, the `except NameError` branch is never taken |
| Dataset.MissingImageEscapes | cores.py:138-142 | without an image, the as-written method raises instead of printing its message and returning |
| Dataset.ApplyWavelet | cores.py:137-160 | corrected: the method returns without a result exactly when no image was read, and transforms otherwise |
| Dataset.ApplyWaveletAgrees | cores.py:137-160 | with an image, the corrected and the as-written method agree, and the transformed input sums to 0 and preserves the temperature order; without one, only the corrected method returns |
| Dataset.FilteredArea | cores.py:81-90 | a pixel the area filter keeps non-zero has a positive cloud area |
| Dataset.PreparedIsCold | cores.py:93-125 | a prepared image with `Twav < 0` handed to a strategy has negative temperatures and positive areas at its valid non-zero pixels |
| Dataset.ScaleWeighting | cores.py:162-183 | an unknown method leaves the object untouched; otherwise `data_tag` is stored first, a strategy's exception escapes, a tuple result is split into `scale_weighted` and `max_pos`, and any other result is stored whole |
| Dataset.Strategy | constants.py:36-43 | only `nflics3k` returns a tuple, of the modelled strategies only `nflicsv2` can raise, and `ind` returns its three bands exactly when all three band cuts succeed |
| Dataset.OnlyNflics3kSplits | cores.py:176-183 | `max_pos` is set only by `nflics3k`, and always when `nflics3k` returns a grid |
| Dataset.NflicsSeesDataTag | cores.py:174-177 | `nflics` sees the `data_tag` passed to `scaleWeighting`: it returns nothing for the tag exactly when that tag has no correction |
| Labelling.LabelCorrect | cores.py:64 | `Label` is a connected-component labelling: background pixels get 0; two foreground pixels share a label exactly when they are 4-connected; a label is one more than the first pixel of its component |
| Labelling.LabelSharedByComponent | powerUtils.py:50-58 | the pixels carrying a foreground pixel's label are exactly the pixels connected to it |
| Labelling.LabelBackground | powerUtils.py:53-55 | label 0 is exactly the background, and labels never exceed the pixel count |
| Labelling.FixSound | cores.py:64 | propagating to the fixpoint keeps every background label 0, and keeps every foreground label pointing at a pixel that is connected to it and no later than it |
| Labelling.FixpointSameLabel | cores.py:64 | at a fixpoint, two foreground pixels share a label exactly when they are connected |
| Marking.PercentileCut | powerUtils.py:45-48 | the cut is refused exactly when no pixel exceeds 1 (numpy's `IndexError`); otherwise a pixel becomes 0 exactly when it is 0, not selected, or below the 25th percentile of the pixels above 1, and every other pixel keeps its power |
| Marking.CutSurvivors | powerUtils.py:46 | every pixel surviving the cut is selected and keeps its power, which is above 1 |
| Marking.MarkColdestSpec | powerUtils.py:235-251 | the arg-min loop on a non-negative map over cold cloud: pixels outside components are kept; a noise-sized component is zeroed; any other component keeps its power except at its first coldest pixel, which holds the negated cloud area; these markers are exactly the negative pixels |
| Marking.MarkStrongestSpec | powerUtils.py:50-60 | the arg-max loop on a non-negative map: every component carries its negated cloud area at its first strongest pixel, and nothing else changes |
| Marking.MarkCoresSpec | powerUtils.py:91-118 | the `nflics3k` loop removes exactly the noise-sized components and changes nothing else; the map stays non-negative; the core lists hold one entry per surviving component, ordered by the component's first pixel, and entry k holds the latitude, longitude and cloud area of the first strongest pixel of the k-th surviving component |
| Marking.KeptSeqIsSurvivorSeq | powerUtils.py:91-96 | visiting the labels in increasing order and keeping those that pass the noise floor visits the surviving components in order of their first pixel |
| Marking.AscendingSorted | powerUtils.py:91-96 | the order in which surviving components are listed is strictly increasing in their first pixel, so each appears once |
| Marking.KeptAreSurvivors | powerUtils.py:96-118 | the labels the `nflics3k` loop keeps are exactly one more than the first pixels of the components that pass the noise floor |
| Components.ColdestIsFirstColdest | powerUtils.py:248-250 | `argmin` of the image restricted to a cold component is its first coldest pixel |
| Components.StrongestIsFirstStrongest | powerUtils.py:57-59 | `argmax` of the power restricted to a positive component is its first strongest pixel |
| Components.SweepMinMarkers | powerUtils.py:239-251 | after the arg-min loop, a pixel is negative exactly when it is the first coldest pixel of a labelled component above the noise floor, and background pixels are unchanged |
| Components.SweepMinClosed | powerUtils.py:239-251 | after visiting labels 1..c, the pixels of those labels hold their per-component value and all others are unchanged |
| Components.SweepMaxFinal | powerUtils.py:53-60 | after the arg-max loop, each pixel holds its per-component value, and only first strongest pixels change |
| Components.Sweep3kClosed | powerUtils.py:96-118 | after visiting labels 1..c, those labels are removed when noise-sized and kept otherwise; with positive components, one core is recorded per kept label |
| Components.Sweep3kCores | powerUtils.py:96-118 | with positive components, entry k of the core list belongs to the k-th label that passes the noise floor and holds the coordinates and cloud area at that component's arg-max in the map as it was before the loop |
| Components.Sweep3kNoMarkers | powerUtils.py:96-118 | the `nflics3k` loop writes no negative marker into a non-negative map |
| Strategies.Correction | powerUtils.py:25-42 | a correction exists exactly for MFG, MSG, GRIDSAT and neutral |
| Strategies.FindPowerNflics | powerUtils.py:6-62 | `nflics` returns nothing because of the tag exactly when the tag has no correction; otherwise it returns nothing or a grid of the image's size |
| Strategies.SumSqrtOrNaN | powerUtils.py:44 | `thresh_p` is NaN exactly when some scale plus the correction is negative, and otherwise it is the plain sum of the square roots |
| Strategies.NflicsThreshold | powerUtils.py:35-48 | the cut is refused exactly when every valid pixel's summed power is at most 1; otherwise a pixel becomes 0 exactly when it is invalid, 0, below the 25th percentile, or below the corrected square-root threshold, where that threshold counts only when every `scale + correction` is non-negative (otherwise numpy's NaN compares false everywhere) |
| Strategies.NflicsMarkers | powerUtils.py:35-62 | the `nflics` result is the cut map with the negated cloud area at the first strongest pixel of every component |
| Strategies.FindPowerNflics3k | powerUtils.py:65-120 | `nflics3k` returns nothing only when no pixel has strong power; otherwise a grid of the image's size and parallel core lists |
| Strategies.Nflics3kCores | powerUtils.py:80-120 | the `nflics3k` grid is the cut map with noise-sized components removed, and its core lists hold, in order of the components' first pixels, the latitude, longitude and cloud area of the first strongest pixel of each remaining component |
| Strategies.FirstAbove | powerUtils.py:143 | the first index whose scale exceeds the bound, or none when no scale does |
| Strategies.LastAtMost | powerUtils.py:144 | the last index whose scale is at most the bound, or none when every scale exceeds it |
| Strategies.V2Raises | powerUtils.py:143-149 | with some scale above 100, `nflicsv2` raises exactly when no scale is at most 65 (`np.max` of an empty selection) |
| Strategies.V2SmallScales | powerUtils.py:147-149 | with some scale above 100, the summed power is the per-pixel sum of the layers before the last scale at most 65 |
| Strategies.V2LargeMask | powerUtils.py:147-160 | with some scale above 100, a pixel passes the mask exactly when the power from the first scale above 100 on exceeds `thresh_ls` and the power before the last scale at most 65 exceeds `thresh_sl`, or the latter exceeds `thresh_ss` |
| Strategies.V2AllScales | powerUtils.py:162-165 | without scales above 100, all layers are summed, and a pixel is selected exactly when its power exceeds the summed square roots of the scales times the number of scales at most 65 |
| Strategies.V2CutSpec | powerUtils.py:168-173 | a pixel survives the `nflicsv2` cut exactly when it is valid, non-zero, selected and not below the 25th percentile |
| Strategies.FindPowerNflicsV2 | powerUtils.py:123-198 | `nflicsv2` raises exactly when the scale selection fails, and otherwise returns nothing or a grid of the image's size |
| Strategies.V2Markers | powerUtils.py:168-194 | the `nflicsv2` grid is the cut map with noise-sized components removed and the negated cloud area at the first coldest pixel of every other component |
| Strategies.SliceCut | powerUtils.py:218-228 | a slice is refused exactly when none of its pixels exceeds 1 |
| Strategies.SliceCutSpec | powerUtils.py:218-226 | a slice pixel survives exactly when it is non-zero, reaches `√scale·5` above 35 or `√scale·2` otherwise, and reaches the slice's 25th percentile; survivors keep their power |
| Strategies.CutSlices | powerUtils.py:214-228 | the slice cuts fail exactly when some slice has no pixel above 1; otherwise each slice is cut with its own scale's threshold |
| Strategies.FindPowerSum | powerUtils.py:201-257 | `sum` always returns a grid of the image's size, and an all-zero grid when some slice is refused |
| Strategies.SumMarkers | powerUtils.py:214-255 | when every slice is cut, the `sum` grid is that map with noise-sized components removed and the negated cloud area at the first coldest pixel of every other component |
| Strategies.SumCutNonneg | powerUtils.py:226-231 | the summed cut slices are non-negative and 0 at invalid pixels |
| Strategies.BandScales | powerUtils.py:280-282 | a band holds exactly the scales in its range: (12, 35], (35, 65) or [65, ∞) |
| Strategies.BandCutSpec | powerUtils.py:284-325 | a band's cut is refused exactly when no pixel of its summed power exceeds 1; otherwise a pixel survives exactly when it is valid, non-zero, in the band's mask and not below the band's 25th percentile |
| Strategies.IndCuts | powerUtils.py:306-325 | the cut bands are returned in the order small, medium, large, exactly when all three band cuts succeed |
| Strategies.IndEmptyBand | powerUtils.py:280-310 | a band without scales makes `ind` return nothing |
| Strategies.IndMarkers | powerUtils.py:327-357 | each returned band is its cut map with the components below that band's smallest-scale noise floor removed, and the negated cloud area at the first coldest pixel of every other component |
| Strategies.FindPowerIndividual | powerUtils.py:260-359 | `ind` returns three bands of the image's size exactly when all band cuts succeed, and nothing otherwise |

## Left out

- The wavelet module (`wav.wavelet`, `calc_coeffs`) is not part of this model. The scales are a parameter of `Init`, and the transform is a parameter of `ApplyWavelet`.
- `to_dataarray`, the NetCDF output and every `print` are left out. They do not affect the results.
- `read_img` always computes `np.gradient(outt)` (cores.py:94). The model keeps only its failure: a grid with fewer than two rows or two columns is returned as `GridTooSmall`, standing for numpy's `ValueError`. The gradient values are used only by the optional edge smoothing (cores.py:108-116), which is left out: it is floating-point Gaussian filtering, and it is off by default.
- Longitude and latitude are stored as given. The regularity check of `read_img` (cores.py:52-54) is left out: it only prints a warning, and it raises `IndexError` when `lon` has fewer than two entries, which is not modelled either.
- The square root, π and numpy's 25th percentile are parameters (`Numerics`). Lemmas that need the percentile to lie between the sample's minimum and maximum require `PercentileInRange`.
- Strategies.FindPowerIndividual: the per-scale standardisation by `np.std` (powerUtils.py:273-278) is taken as the input `wll` rather than computed.
- `find_power_dominant` is not part of this model. `scaleWeighting` receives it as a function parameter.
- Labelling.Label: labels are one more than the first pixel of the component, not scipy's 1, 2, …. The order is the same, which is all the loops depend on, but the values stored in `labels` are not modelled.
- Preprocess.ReadImg: an empty image is returned as `EmptyImage`, standing for numpy's `nanmin` raising on an empty array. A dynamic background with no valid pixel is returned as `NaNBackground`, standing for numpy filling the image with NaN. What happens after that is not modelled.
- Preprocess.ReadImg: the resolution is a positive integer, as every configured dataset has.
- Strategies.FindPowerNflics3k: the latitude/longitude arrays must have at least one entry per row and column, or per pixel (`CoordsFit`). Longer arrays are accepted, as in the source. With shorter arrays the source raises `IndexError`; that error is not modelled.
- Dataset.ScaleWeighting: for `ind`, the standardised stack must match the power stack; for `nflics3k`, the coordinates must fit the grid (`Ready`). A session always carries a power stack, so calling a registered strategy before `applyWavelet` (an `AttributeError` on `coreObj.power`) is not modelled; an unknown method is accepted on any session.
- The closed forms of the loops (`MarkColdestSpec`, `MarkStrongestSpec`, `MarkCoresSpec`, and the strategy lemmas using them) are stated for maps the strategies actually produce: non-negative power with cold cloud and positive area under every core. On other inputs the loops are still modelled exactly, but only the fold describes them.
- The square roots of the scales in `nflics3k`, `nflicsv2`, `sum` and `ind` are taken of the positive scales the wavelet produces. A negative scale would make numpy's root NaN there; only `nflics`, whose correction can make `scale + correction` negative, models that NaN.
- Integer overflow and floating-point rounding are not modelled. Values are mathematical reals. `int()` of a scale is modelled as truncation toward zero.
- Where the documentation says the area map is zero outside clouds, the model follows the code: the clear-sky region is label 0, and it also gets its pixel count when that count reaches the threshold (cores.py:81-90).

## Findings

| source | as written | input that shows it | evidently intended | confidence | as-written member | corrected member |
|---|---|---|---|---|---|---|
| cores.py:138-142 | `applyWavelet` guards `self.image.copy()` with `except NameError`, but reading a missing attribute raises `AttributeError` | a dataset on which `read_img` was never called | print the message and return without a result | high, not executed | Dataset.ApplyWaveletAsWritten (shown by Dataset.MissingImageEscapes) | Dataset.ApplyWavelet |

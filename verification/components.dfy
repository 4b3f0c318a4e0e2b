/** The per-component loops shared by the weighting strategies of
    powerUtils.py. Each strategy labels its thresholded power map and then
    visits the labels in increasing order (`for inds in u`), skipping the
    background label 0. A visit either removes a component that is too
    small to be more than wavelet noise or writes one marker into it.

    The loops are modelled as folds over the labels 1 .. c (`Sweep*`), so
    that the order of the writes is the source's. The closed forms
    (`Marked*`) describe the finished map pixel by pixel; the lemmas connect
    the two under the conditions in which the source's markers stay inside
    their own component. */
module Components {
  import opened Basics

  /** The grid with every pixel outside component `c` set to 0, the
      `arr[np.where(labels != inds)] = 0` step. */
  function Restrict(img: seq<real>, lab: seq<nat>, c: nat): (r: seq<real>)
    requires |lab| == |img|
    ensures |r| == |img|
    ensures forall i :: 0 <= i < |img| ==> r[i] == (if lab[i] == c then img[i] else 0.0)
  {
    seq(|img|, i requires 0 <= i < |img| => if lab[i] == c then img[i] else 0.0)
  }

  /** Component `c` removed from the map: `power_img[np.where(labels == inds)] = 0`. */
  function ZeroLabel(p: seq<real>, lab: seq<nat>, c: nat): (r: seq<real>)
    requires |lab| == |p|
    ensures |r| == |p|
    ensures forall i :: 0 <= i < |p| ==> r[i] == (if lab[i] == c then 0.0 else p[i])
  {
    seq(|p|, i requires 0 <= i < |p| => if lab[i] == c then 0.0 else p[i])
  }

  /** The noise floor of a strategy: the grid resolution, pi, and the
      smallest wavelet scale that counts for the map being swept. */
  datatype Floor = Floor(res: nat, pi: real, minScale: real)

  /** A component of `count` pixels covers less area than a disc whose
      diameter is the smallest scale:
      `count * res**2 < pi * int(minScale)**2 / 4`. */
  predicate BelowNoise(count: nat, fl: Floor)
  {
    var m := Trunc(fl.minScale);
    ((count * fl.res) * fl.res) as real < fl.pi * (m * m) as real / 4.0
  }

  /* ---------------------------------------------------------------
     The coldest pixel of a component (sum, nflicsv2, ind)
     --------------------------------------------------------------- */

  /** The pixel `np.argmin` picks on the image restricted to component `c`. */
  function Coldest(img: seq<real>, lab: seq<nat>, c: nat): (k: nat)
    requires |lab| == |img| && |img| > 0
    ensures k < |img|
  {
    ArgMin(Restrict(img, lab, c))
  }

  /** `k` is the first pixel of component `c`, in row-major order, at which
      the image takes its smallest value over the component. */
  predicate IsFirstColdest(img: seq<real>, lab: seq<nat>, c: nat, k: nat)
    requires |lab| == |img|
  {
    && k < |img| && lab[k] == c
    && (forall j :: 0 <= j < |img| && lab[j] == c ==> img[k] <= img[j])
    && (forall j :: 0 <= j < k && lab[j] == c ==> img[k] < img[j])
  }

  /** When the image is negative on the component, the restricted arg-min is
      exactly the component's first coldest pixel: it lies inside the
      component, and no other pixel has that property. */
  lemma ColdestIsFirstColdest(img: seq<real>, lab: seq<nat>, c: nat, k: nat)
    requires |lab| == |img| && c in lab
    requires forall i :: 0 <= i < |img| && lab[i] == c ==> img[i] < 0.0
    ensures |img| > 0
    ensures IsFirstColdest(img, lab, c, Coldest(img, lab, c))
    ensures IsFirstColdest(img, lab, c, k) <==> k == Coldest(img, lab, c)
  {
    var arr := Restrict(img, lab, c);
    var pos := Coldest(img, lab, c);
    var m :| 0 <= m < |lab| && lab[m] == c;
    assert arr[pos] <= arr[m] < 0.0;
    assert lab[pos] == c;
    forall j | 0 <= j < |img| && lab[j] == c
      ensures img[pos] <= img[j]
    {
      assert arr[j] == img[j];
    }
    forall j | 0 <= j < pos && lab[j] == c
      ensures img[pos] < img[j]
    {
      assert arr[j] == img[j];
    }
    if IsFirstColdest(img, lab, c, k) {
      assert !(k < pos);
      assert !(pos < k);
    }
  }

  /** One visit of the arg-min strategies (powerUtils.py:243-251): a
      component below the noise floor is removed; otherwise its coldest
      pixel receives the negated cloud area found there. */
  function StepMin(p: seq<real>, lab: seq<nat>, img: seq<real>, area: seq<real>, fl: Floor, c: nat): (r: seq<real>)
    requires |lab| == |p| == |img| == |area|
    ensures |r| == |p|
  {
    if c !in lab then p
    else if BelowNoise(Count(lab, c), fl) then ZeroLabel(p, lab, c)
    else
      var pos := Coldest(img, lab, c);
      p[pos := -area[pos]]
  }

  /** The visits of labels 1 .. c, in increasing order. */
  function SweepMin(p: seq<real>, lab: seq<nat>, img: seq<real>, area: seq<real>, fl: Floor, c: nat): (r: seq<real>)
    requires |lab| == |p| == |img| == |area|
    ensures |r| == |p|
  {
    if c == 0 then p else StepMin(SweepMin(p, lab, img, area, fl, c - 1), lab, img, area, fl, c)
  }

  /** Pixel `i` of the finished arg-min map: background pixels keep their
      power, components below the noise floor are removed, and every other
      component carries its negated area at its coldest pixel. */
  function MarkedMin(p: seq<real>, lab: seq<nat>, img: seq<real>, area: seq<real>, fl: Floor, i: nat): real
    requires |lab| == |p| == |img| == |area| && i < |p|
  {
    if lab[i] == 0 then p[i]
    else if BelowNoise(Count(lab, lab[i]), fl) then 0.0
    else if i == Coldest(img, lab, lab[i]) then -area[i]
    else p[i]
  }

  /** After the visits of labels 1 .. c, the components visited so far are
      in their final state and all other pixels are untouched. */
  lemma {:induction false} SweepMinClosed(p: seq<real>, lab: seq<nat>, img: seq<real>, area: seq<real>, fl: Floor, c: nat)
    requires |lab| == |p| == |img| == |area|
    requires forall i :: 0 <= i < |img| && lab[i] > 0 ==> img[i] < 0.0
    ensures forall i :: 0 <= i < |p| ==>
      SweepMin(p, lab, img, area, fl, c)[i] == (if 1 <= lab[i] <= c then MarkedMin(p, lab, img, area, fl, i) else p[i])
  {
    if c > 0 {
      SweepMinClosed(p, lab, img, area, fl, c - 1);
      StepMinClosed(p, SweepMin(p, lab, img, area, fl, c - 1), lab, img, area, fl, c);
    }
  }

  /** The visit of label `c` finishes component `c` and touches nothing else. */
  lemma StepMinClosed(p: seq<real>, prev: seq<real>, lab: seq<nat>, img: seq<real>, area: seq<real>, fl: Floor, c: nat)
    requires |lab| == |p| == |prev| == |img| == |area| && c > 0
    requires forall i :: 0 <= i < |img| && lab[i] > 0 ==> img[i] < 0.0
    requires forall i :: 0 <= i < |p| ==>
      prev[i] == (if 1 <= lab[i] <= c - 1 then MarkedMin(p, lab, img, area, fl, i) else p[i])
    ensures forall i :: 0 <= i < |p| ==>
      StepMin(prev, lab, img, area, fl, c)[i] == (if 1 <= lab[i] <= c then MarkedMin(p, lab, img, area, fl, i) else p[i])
  {
    var next := StepMin(prev, lab, img, area, fl, c);
    if c !in lab {
      forall i | 0 <= i < |p| ensures lab[i] != c {
        assert lab[i] in lab;
      }
    } else if BelowNoise(Count(lab, c), fl) {
    } else {
      ColdestIsFirstColdest(img, lab, c, 0);
      var pos := Coldest(img, lab, c);
      assert lab[pos] == c;
      forall i | 0 <= i < |p|
        ensures next[i] == (if 1 <= lab[i] <= c then MarkedMin(p, lab, img, area, fl, i) else p[i])
      {
        if i == pos {
        } else {
          assert next[i] == prev[i];
        }
      }
    }
  }

  /** The whole arg-min loop, once every label has been visited. */
  lemma SweepMinFinal(p: seq<real>, lab: seq<nat>, img: seq<real>, area: seq<real>, fl: Floor)
    requires |lab| == |p| == |img| == |area|
    requires forall i :: 0 <= i < |lab| ==> lab[i] <= |lab|
    requires forall i :: 0 <= i < |img| && lab[i] > 0 ==> img[i] < 0.0
    ensures forall i :: 0 <= i < |p| ==> SweepMin(p, lab, img, area, fl, |lab|)[i] == MarkedMin(p, lab, img, area, fl, i)
  {
    SweepMinClosed(p, lab, img, area, fl, |lab|);
  }

  /** Exactly one marker per surviving component: with a non-negative power
      map and positive areas, the negative pixels of the finished map are
      exactly the first coldest pixels of the components that pass the
      noise floor, and pixels outside every component never change. */
  lemma SweepMinMarkers(p: seq<real>, lab: seq<nat>, img: seq<real>, area: seq<real>, fl: Floor)
    requires |lab| == |p| == |img| == |area|
    requires forall i :: 0 <= i < |lab| ==> lab[i] <= |lab|
    requires forall i :: 0 <= i < |img| && lab[i] > 0 ==> img[i] < 0.0 && area[i] > 0.0
    requires forall i :: 0 <= i < |p| ==> p[i] >= 0.0
    ensures forall i :: 0 <= i < |p| ==>
      var r := SweepMin(p, lab, img, area, fl, |lab|);
      && (r[i] < 0.0 <==> lab[i] > 0 && !BelowNoise(Count(lab, lab[i]), fl) && IsFirstColdest(img, lab, lab[i], i))
      && (lab[i] == 0 ==> r[i] == p[i])
  {
    SweepMinFinal(p, lab, img, area, fl);
    forall i | 0 <= i < |p| && lab[i] > 0
      ensures IsFirstColdest(img, lab, lab[i], i) <==> i == Coldest(img, lab, lab[i])
    {
      ColdestIsFirstColdest(img, lab, lab[i], i);
    }
  }

  /* ---------------------------------------------------------------
     The strongest pixel of a component (nflics)
     --------------------------------------------------------------- */

  /** The pixel `np.argmax` picks on the power map restricted to component `c`. */
  function Strongest(p: seq<real>, lab: seq<nat>, c: nat): (k: nat)
    requires |lab| == |p| && |p| > 0
    ensures k < |p|
  {
    ArgMax(Restrict(p, lab, c))
  }

  /** `k` is the first pixel of component `c` at which the power peaks. */
  predicate IsFirstStrongest(p: seq<real>, lab: seq<nat>, c: nat, k: nat)
    requires |lab| == |p|
  {
    && k < |p| && lab[k] == c
    && (forall j :: 0 <= j < |p| && lab[j] == c ==> p[j] <= p[k])
    && (forall j :: 0 <= j < k && lab[j] == c ==> p[j] < p[k])
  }

  lemma StrongestIsFirstStrongest(p: seq<real>, lab: seq<nat>, c: nat, k: nat)
    requires |lab| == |p| && c in lab
    requires forall i :: 0 <= i < |p| && lab[i] == c ==> p[i] > 0.0
    ensures |p| > 0
    ensures IsFirstStrongest(p, lab, c, Strongest(p, lab, c))
    ensures IsFirstStrongest(p, lab, c, k) <==> k == Strongest(p, lab, c)
  {
    var arr := Restrict(p, lab, c);
    var pos := Strongest(p, lab, c);
    var m :| 0 <= m < |lab| && lab[m] == c;
    assert 0.0 < arr[m] <= arr[pos];
    assert lab[pos] == c;
    forall j | 0 <= j < |p| && lab[j] == c
      ensures p[j] <= p[pos]
    {
      assert arr[j] == p[j];
    }
    forall j | 0 <= j < pos && lab[j] == c
      ensures p[j] < p[pos]
    {
      assert arr[j] == p[j];
    }
    if IsFirstStrongest(p, lab, c, k) {
      assert !(k < pos);
      assert !(pos < k);
    }
  }

  /** One visit of `find_power_nflics` (powerUtils.py:53-60): the arg-max
      of the current map restricted to the component receives the negated
      area there. There is no noise floor. */
  function StepMax(p: seq<real>, lab: seq<nat>, area: seq<real>, c: nat): (r: seq<real>)
    requires |lab| == |p| == |area|
    ensures |r| == |p|
  {
    if c !in lab then p
    else
      var pos := ArgMax(Restrict(p, lab, c));
      p[pos := -area[pos]]
  }

  function SweepMax(p: seq<real>, lab: seq<nat>, area: seq<real>, c: nat): (r: seq<real>)
    requires |lab| == |p| == |area|
    ensures |r| == |p|
  {
    if c == 0 then p else StepMax(SweepMax(p, lab, area, c - 1), lab, area, c)
  }

  /** Pixel `i` of the finished nflics map: the strongest pixel of every
      component carries the negated area, every other pixel its power. */
  function MarkedMax(p: seq<real>, lab: seq<nat>, area: seq<real>, i: nat): real
    requires |lab| == |p| == |area| && i < |p|
  {
    if lab[i] > 0 && i == Strongest(p, lab, lab[i]) then -area[i] else p[i]
  }

  /** Restricting two maps that agree on component `c` gives the same grid. */
  lemma RestrictAgree(p: seq<real>, q: seq<real>, lab: seq<nat>, c: nat)
    requires |lab| == |p| == |q|
    requires forall i :: 0 <= i < |p| && lab[i] == c ==> p[i] == q[i]
    ensures Restrict(p, lab, c) == Restrict(q, lab, c)
  {
    assert forall i :: 0 <= i < |p| ==> Restrict(p, lab, c)[i] == Restrict(q, lab, c)[i];
  }

  lemma {:induction false} SweepMaxClosed(p: seq<real>, lab: seq<nat>, area: seq<real>, c: nat)
    requires |lab| == |p| == |area|
    requires forall i :: 0 <= i < |p| && lab[i] > 0 ==> p[i] > 0.0
    ensures forall i :: 0 <= i < |p| ==>
      SweepMax(p, lab, area, c)[i] == (if 1 <= lab[i] <= c then MarkedMax(p, lab, area, i) else p[i])
  {
    if c > 0 {
      SweepMaxClosed(p, lab, area, c - 1);
      StepMaxClosed(p, SweepMax(p, lab, area, c - 1), lab, area, c);
    }
  }

  /** The visit of label `c` still sees the untouched power of component
      `c`, so its marker lands on the component's strongest pixel. */
  lemma StepMaxClosed(p: seq<real>, prev: seq<real>, lab: seq<nat>, area: seq<real>, c: nat)
    requires |lab| == |p| == |prev| == |area| && c > 0
    requires forall i :: 0 <= i < |p| && lab[i] > 0 ==> p[i] > 0.0
    requires forall i :: 0 <= i < |p| ==>
      prev[i] == (if 1 <= lab[i] <= c - 1 then MarkedMax(p, lab, area, i) else p[i])
    ensures forall i :: 0 <= i < |p| ==>
      StepMax(prev, lab, area, c)[i] == (if 1 <= lab[i] <= c then MarkedMax(p, lab, area, i) else p[i])
  {
    var next := StepMax(prev, lab, area, c);
    if c !in lab {
      forall i | 0 <= i < |p| ensures lab[i] != c {
        assert lab[i] in lab;
      }
    } else {
      assert forall i :: 0 <= i < |p| && lab[i] == c ==> prev[i] == p[i];
      RestrictAgree(prev, p, lab, c);
      StrongestInComponent(p, lab, c);
      var pos := Strongest(p, lab, c);
      assert next == prev[pos := -area[pos]];
      forall i | 0 <= i < |p|
        ensures next[i] == (if 1 <= lab[i] <= c then MarkedMax(p, lab, area, i) else p[i])
      {
        if i != pos {
          assert next[i] == prev[i];
        }
      }
    }
  }

  /** With positive power on component `c`, its strongest pixel lies in it. */
  lemma StrongestInComponent(p: seq<real>, lab: seq<nat>, c: nat)
    requires |lab| == |p| && c in lab
    requires forall i :: 0 <= i < |p| && lab[i] == c ==> p[i] > 0.0
    ensures |p| > 0 && lab[Strongest(p, lab, c)] == c
  {
    var arr := Restrict(p, lab, c);
    var m :| 0 <= m < |lab| && lab[m] == c;
    assert 0.0 < arr[m] <= arr[Strongest(p, lab, c)];
  }

  /** The whole nflics loop: one marker per component, at its first
      strongest pixel, and nothing else changes. */
  lemma SweepMaxFinal(p: seq<real>, lab: seq<nat>, area: seq<real>)
    requires |lab| == |p| == |area|
    requires forall i :: 0 <= i < |lab| ==> lab[i] <= |lab|
    requires forall i :: 0 <= i < |p| && lab[i] > 0 ==> p[i] > 0.0
    ensures forall i :: 0 <= i < |p| ==>
      var r := SweepMax(p, lab, area, |lab|);
      && r[i] == MarkedMax(p, lab, area, i)
      && (r[i] != p[i] ==> lab[i] > 0 && IsFirstStrongest(p, lab, lab[i], i))
  {
    SweepMaxClosed(p, lab, area, |lab|);
    forall i | 0 <= i < |p| && lab[i] > 0
      ensures IsFirstStrongest(p, lab, lab[i], i) <==> i == Strongest(p, lab, lab[i])
    {
      StrongestIsFirstStrongest(p, lab, lab[i], i);
    }
  }

  /* ---------------------------------------------------------------
     The core list of nflics3k
     --------------------------------------------------------------- */

  /** The coordinates of the grid: one latitude per row and one longitude
      per column (`lat.ndim == 1`), or one of each per pixel (`lat.ndim == 2`). */
  datatype Coords = Axes(lats: seq<real>, lons: seq<real>) | Mesh(lats: seq<real>, lons: seq<real>)

  /** The coordinates cover a grid of `n` pixels in rows of width `w`:
      at least one latitude per row and one longitude per column, or at
      least one of each per pixel. Longer arrays are accepted, since only
      their leading entries are ever indexed. */
  predicate CoordsFit(co: Coords, w: nat, n: nat)
  {
    match co
    case Axes(lats, lons) => w > 0 && |lons| >= w && RowsSpanned(n, w) <= |lats|
    case Mesh(lats, lons) => |lats| >= n && |lons| >= n
  }

  /** The number of rows of width `w` that `n` row-major pixels touch. */
  function RowsSpanned(n: nat, w: nat): (rows: nat)
    requires w > 0
    ensures n > 0 ==> rows > 0
    decreases n
  {
    if n == 0 then 0 else if n <= w then 1 else 1 + RowsSpanned(n - w, w)
  }

  /** The rows that `n` pixels span hold at least `n` pixels. */
  lemma {:induction false} RowsCover(n: nat, w: nat)
    requires w > 0
    ensures n <= RowsSpanned(n, w) * w
    decreases n
  {
    if n > w {
      RowsCover(n - w, w);
      assert (1 + RowsSpanned(n - w, w)) * w == w + RowsSpanned(n - w, w) * w;
    }
  }

  /** Row-major position `pos` lies on row `pos / w` of a grid with `h` rows. */
  lemma RowInRange(pos: nat, w: nat, h: nat)
    requires w > 0 && pos < h * w
    ensures pos / w < h
  {
    var q := pos / w;
    assert q * w <= pos;
    if q >= h {
      MulMono(h, q, w);
    }
  }

  /** Row `pos / w` and column `pos % w` of a pixel index the axes. */
  lemma AxesInRange(co: Coords, w: nat, n: nat, pos: nat)
    requires co.Axes? && CoordsFit(co, w, n) && pos < n
    ensures w > 0 && pos / w < |co.lats| && pos % w < |co.lons|
  {
    RowsCover(n, w);
    RowInRange(pos, w, RowsSpanned(n, w));
  }

  lemma MulMono(a: nat, b: nat, w: nat)
    requires a <= b
    ensures a * w <= b * w
  {
  }

  /** Latitude and longitude of pixel `pos` (powerUtils.py:111-117). */
  function LatLonAt(co: Coords, w: nat, n: nat, pos: nat): (ll: (real, real))
    requires CoordsFit(co, w, n) && pos < n
  {
    match co
    case Mesh(lats, lons) => (lats[pos], lons[pos])
    case Axes(lats, lons) =>
      AxesInRange(co, w, n, pos);
      var row, col := pos / w, pos % w;
      (lats[row], lons[col])
  }

  /** The `maxdic` of nflics3k: three parallel lists. */
  datatype MaxPos = MaxPos(lat: seq<real>, lon: seq<real>, areaPixels: seq<real>)

  predicate Parallel(m: MaxPos)
  {
    |m.lat| == |m.lon| == |m.areaPixels|
  }

  datatype Found = Found(power: seq<real>, cores: MaxPos)

  /** One visit of `find_power_nflics3k` (powerUtils.py:96-118): a
      component below the noise floor is removed; otherwise, when the power
      peak of the component is positive, its coordinates and cloud area are
      appended to the core list. The power map gets no marker. */
  function Step3k(st: Found, lab: seq<nat>, area: seq<real>, co: Coords, w: nat, fl: Floor, c: nat): (r: Found)
    requires |lab| == |st.power| == |area| && CoordsFit(co, w, |lab|)
    ensures |r.power| == |st.power|
  {
    if c !in lab then st
    else if BelowNoise(Count(lab, c), fl) then Found(ZeroLabel(st.power, lab, c), st.cores)
    else
      var arr := Restrict(st.power, lab, c);
      var pos := ArgMax(arr);
      if arr[pos] > 0.0 then
        var ll := LatLonAt(co, w, |lab|, pos);
        var m := st.cores;
        Found(st.power, MaxPos(m.lat + [ll.0], m.lon + [ll.1], m.areaPixels + [area[pos]]))
      else st
  }

  /** The visits of labels 1 .. c, starting from an empty core list. The
      three lists always grow together. */
  function Sweep3k(p: seq<real>, lab: seq<nat>, area: seq<real>, co: Coords, w: nat, fl: Floor, c: nat): (r: Found)
    requires |lab| == |p| == |area| && CoordsFit(co, w, |lab|)
    ensures |r.power| == |p|
    ensures Parallel(r.cores)
  {
    if c == 0 then Found(p, MaxPos([], [], []))
    else Step3k(Sweep3k(p, lab, area, co, w, fl, c - 1), lab, area, co, w, fl, c)
  }

  /** Pixel `i` of the finished nflics3k map. */
  function Removed(p: seq<real>, lab: seq<nat>, fl: Floor, i: nat): real
    requires |lab| == |p| && i < |p|
  {
    if lab[i] > 0 && BelowNoise(Count(lab, lab[i]), fl) then 0.0 else p[i]
  }

  /** The labels among 1 .. c whose component passes the noise floor. */
  function Kept(lab: seq<nat>, fl: Floor, c: nat): set<nat>
  {
    set k | 1 <= k <= c && k in lab && !BelowNoise(Count(lab, k), fl)
  }

  /** nflics3k only ever removes whole components below the noise floor;
      with positive power on every component, the core list holds exactly
      one entry per component that passes the floor. */
  lemma {:induction false} Sweep3kClosed(p: seq<real>, lab: seq<nat>, area: seq<real>, co: Coords, w: nat, fl: Floor, c: nat)
    requires |lab| == |p| == |area| && CoordsFit(co, w, |lab|)
    ensures forall i :: 0 <= i < |p| ==>
      Sweep3k(p, lab, area, co, w, fl, c).power[i] == (if 1 <= lab[i] <= c then Removed(p, lab, fl, i) else p[i])
    ensures (forall i :: 0 <= i < |p| && lab[i] > 0 ==> p[i] > 0.0) ==>
      |Sweep3k(p, lab, area, co, w, fl, c).cores.areaPixels| == |Kept(lab, fl, c)|
  {
    if c > 0 {
      Sweep3kClosed(p, lab, area, co, w, fl, c - 1);
      Step3kClosed(p, Sweep3k(p, lab, area, co, w, fl, c - 1), lab, area, co, w, fl, c);
    }
  }

  lemma Step3kClosed(p: seq<real>, prev: Found, lab: seq<nat>, area: seq<real>, co: Coords, w: nat, fl: Floor, c: nat)
    requires |lab| == |p| == |prev.power| == |area| && CoordsFit(co, w, |lab|) && c > 0
    requires forall i :: 0 <= i < |p| ==>
      prev.power[i] == (if 1 <= lab[i] <= c - 1 then Removed(p, lab, fl, i) else p[i])
    requires (forall i :: 0 <= i < |p| && lab[i] > 0 ==> p[i] > 0.0) ==>
      |prev.cores.areaPixels| == |Kept(lab, fl, c - 1)|
    ensures forall i :: 0 <= i < |p| ==>
      Step3k(prev, lab, area, co, w, fl, c).power[i] == (if 1 <= lab[i] <= c then Removed(p, lab, fl, i) else p[i])
    ensures (forall i :: 0 <= i < |p| && lab[i] > 0 ==> p[i] > 0.0) ==>
      |Step3k(prev, lab, area, co, w, fl, c).cores.areaPixels| == |Kept(lab, fl, c)|
  {
    if c !in lab {
      forall i | 0 <= i < |p| ensures lab[i] != c {
        assert lab[i] in lab;
      }
    }
    if forall i :: 0 <= i < |p| && lab[i] > 0 ==> p[i] > 0.0 {
      Step3kCount(p, prev, lab, area, co, w, fl, c);
    }
  }

  /** The visit of a component that passes the noise floor adds one entry,
      because its untouched power peak is positive. */
  lemma Step3kCount(p: seq<real>, prev: Found, lab: seq<nat>, area: seq<real>, co: Coords, w: nat, fl: Floor, c: nat)
    requires |lab| == |p| == |prev.power| == |area| && CoordsFit(co, w, |lab|) && c > 0
    requires forall i :: 0 <= i < |p| && lab[i] == c ==> prev.power[i] == p[i]
    requires forall i :: 0 <= i < |p| && lab[i] > 0 ==> p[i] > 0.0
    requires |prev.cores.areaPixels| == |Kept(lab, fl, c - 1)|
    ensures |Step3k(prev, lab, area, co, w, fl, c).cores.areaPixels| == |Kept(lab, fl, c)|
  {
    if c !in lab || BelowNoise(Count(lab, c), fl) {
      assert Kept(lab, fl, c) == Kept(lab, fl, c - 1);
    } else {
      assert Kept(lab, fl, c) == Kept(lab, fl, c - 1) + {c};
      RestrictAgree(prev.power, p, lab, c);
      StrongestIsFirstStrongest(p, lab, c, 0);
      assert Restrict(prev.power, lab, c)[Strongest(p, lab, c)] > 0.0;
    }
  }

  /** Label `c` occurs and its component passes the noise floor. */
  predicate Passes(lab: seq<nat>, fl: Floor, c: nat)
  {
    c in lab && !BelowNoise(Count(lab, c), fl)
  }

  /** The labels among 1 .. c that pass the noise floor, in the order
      nflics3k visits them. */
  function KeptSeq(lab: seq<nat>, fl: Floor, c: nat): seq<nat>
  {
    if c == 0 then []
    else KeptSeq(lab, fl, c - 1) + (if Passes(lab, fl, c) then [c] else [])
  }

  /** Entry `k` of the core list holds the coordinates and the cloud area
      of pixel `pos`. */
  predicate EntryAt(m: MaxPos, k: nat, co: Coords, w: nat, area: seq<real>, pos: nat)
    requires CoordsFit(co, w, |area|) && pos < |area|
  {
    && k < |m.lat| && k < |m.lon| && k < |m.areaPixels|
    && (m.lat[k], m.lon[k]) == LatLonAt(co, w, |area|, pos)
    && m.areaPixels[k] == area[pos]
  }

  /** The core list `m` has one entry per label of `ks`, in order, each
      taken at the strongest pixel of that component in `p`. */
  predicate CoresFor(m: MaxPos, ks: seq<nat>, p: seq<real>, lab: seq<nat>, area: seq<real>, co: Coords, w: nat)
    requires |lab| == |p| == |area| && CoordsFit(co, w, |lab|)
  {
    && |m.lat| == |ks|
    && forall k :: 0 <= k < |ks| ==>
         && ks[k] in lab
         && EntryAt(m, k, co, w, area, Strongest(p, lab, ks[k]))
  }

  lemma AppendCore(m: MaxPos, ks: seq<nat>, p: seq<real>, lab: seq<nat>, area: seq<real>, co: Coords, w: nat, c: nat)
    requires |lab| == |p| == |area| && CoordsFit(co, w, |lab|)
    requires Parallel(m) && CoresFor(m, ks, p, lab, area, co, w) && c in lab
    ensures
      var pos := Strongest(p, lab, c);
      var ll := LatLonAt(co, w, |lab|, pos);
      CoresFor(MaxPos(m.lat + [ll.0], m.lon + [ll.1], m.areaPixels + [area[pos]]), ks + [c], p, lab, area, co, w)
  {
    var pos := Strongest(p, lab, c);
    var ll := LatLonAt(co, w, |lab|, pos);
    var m' := MaxPos(m.lat + [ll.0], m.lon + [ll.1], m.areaPixels + [area[pos]]);
    forall k | 0 <= k < |ks|
      ensures EntryAt(m', k, co, w, area, Strongest(p, lab, ks[k]))
    {
      assert EntryAt(m, k, co, w, area, Strongest(p, lab, ks[k]));
    }
    assert EntryAt(m', |ks|, co, w, area, pos);
  }

  /** With positive power on every component, the core list of nflics3k
      has one entry per label that passes the noise floor, in label
      order, taken at the strongest pixel of that component in the map as
      it was before the loop: removing other components never moves a
      peak. */
  lemma {:induction false} Sweep3kCores(p: seq<real>, lab: seq<nat>, area: seq<real>, co: Coords, w: nat, fl: Floor, c: nat)
    requires |lab| == |p| == |area| && CoordsFit(co, w, |lab|)
    requires forall i :: 0 <= i < |p| && lab[i] > 0 ==> p[i] > 0.0
    ensures CoresFor(Sweep3k(p, lab, area, co, w, fl, c).cores, KeptSeq(lab, fl, c), p, lab, area, co, w)
  {
    if c > 0 {
      Sweep3kCores(p, lab, area, co, w, fl, c - 1);
      Sweep3kClosed(p, lab, area, co, w, fl, c - 1);
      Step3kCores(p, Sweep3k(p, lab, area, co, w, fl, c - 1), lab, area, co, w, fl, c);
    }
  }

  lemma Step3kCores(p: seq<real>, prev: Found, lab: seq<nat>, area: seq<real>, co: Coords, w: nat, fl: Floor, c: nat)
    requires |lab| == |p| == |prev.power| == |area| && CoordsFit(co, w, |lab|) && c > 0
    requires forall i :: 0 <= i < |p| ==>
      prev.power[i] == (if 1 <= lab[i] <= c - 1 then Removed(p, lab, fl, i) else p[i])
    requires forall i :: 0 <= i < |p| && lab[i] > 0 ==> p[i] > 0.0
    requires Parallel(prev.cores) && CoresFor(prev.cores, KeptSeq(lab, fl, c - 1), p, lab, area, co, w)
    ensures CoresFor(Step3k(prev, lab, area, co, w, fl, c).cores, KeptSeq(lab, fl, c), p, lab, area, co, w)
  {
    if Passes(lab, fl, c) {
      RestrictAgree(prev.power, p, lab, c);
      StrongestIsFirstStrongest(p, lab, c, 0);
      assert Restrict(prev.power, lab, c)[Strongest(p, lab, c)] > 0.0;
      AppendCore(prev.cores, KeptSeq(lab, fl, c - 1), p, lab, area, co, w, c);
    }
  }

  /** nflics3k writes no marker: a non-negative power map stays
      non-negative. */
  lemma Sweep3kNoMarkers(p: seq<real>, lab: seq<nat>, area: seq<real>, co: Coords, w: nat, fl: Floor)
    requires |lab| == |p| == |area| && CoordsFit(co, w, |lab|)
    requires forall i :: 0 <= i < |p| ==> p[i] >= 0.0
    ensures forall i :: 0 <= i < |p| ==> Sweep3k(p, lab, area, co, w, fl, |lab|).power[i] >= 0.0
  {
    Sweep3kClosed(p, lab, area, co, w, fl, |lab|);
  }
}

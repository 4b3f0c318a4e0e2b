/** The steps every weighting strategy of powerUtils.py shares: the
    floating-point primitives it calls, the percentile cut of a power map,
    and the marking of the cut map's 4-connected components. The marking
    theorems here speak of components (`Connected`) rather than of label
    numbers, so they hold for scipy's numbering as well as for `Label`'s. */
module Marking {
  import opened Basics
  import opened Grids
  import opened Labelling
  import opened Components

  /** The floating-point primitives the strategies use: numpy's pi, the
      square root (`** .5`) and `np.percentile(a, 25)`. */
  datatype Numerics = Numerics(pi: real, sqrt: real -> real, pct25: seq<real> -> real)

  /** The 25th percentile of a non-empty sample lies between its smallest
      and its largest value, as numpy's linear interpolation guarantees:
      some sample value is at most the percentile and some is at least it. */
  ghost predicate PercentileInRange(num: Numerics)
  {
    forall s: seq<real> {:trigger num.pct25(s)} :: |s| > 0 ==>
      && (exists i :: 0 <= i < |s| && s[i] <= num.pct25(s))
      && (exists j :: 0 <= j < |s| && num.pct25(s) <= s[j])
  }

  /** `power_img[coreObj.invalid] = 0`. */
  function ZeroInvalid(p: seq<real>, invalid: seq<bool>): (r: seq<real>)
    requires |invalid| == |p|
    ensures |r| == |p|
    ensures forall i :: 0 <= i < |p| ==> r[i] == (if invalid[i] then 0.0 else p[i])
  {
    seq(|p|, i requires 0 <= i < |p| => if invalid[i] then 0.0 else p[i])
  }

  /** The mask `p > t`. */
  function Above(p: seq<real>, t: real): (m: seq<bool>)
    ensures |m| == |p|
    ensures forall i :: 0 <= i < |p| ==> (m[i] <==> p[i] > t)
  {
    seq(|p|, i requires 0 <= i < |p| => p[i] > t)
  }

  /** The mask of pixels that a `p < t` cut spares. */
  function AtLeast(p: seq<real>, t: real): (m: seq<bool>)
    ensures |m| == |p|
    ensures forall i :: 0 <= i < |p| ==> (m[i] <==> p[i] >= t)
  {
    seq(|p|, i requires 0 <= i < |p| => p[i] >= t)
  }

  /** `p[(p < np.percentile(p[p > 1], 25)) | ~keep] = 0`, inside the
      strategies' `try`: when no value exceeds 1 the percentile of the
      empty selection raises `IndexError` and the strategy gives up
      (`None`). */
  function PercentileCut(p: seq<real>, keep: seq<bool>, num: Numerics): (r: Option<seq<real>>)
    requires |keep| == |p|
    ensures r.None? <==> forall i :: 0 <= i < |p| ==> p[i] <= 1.0
    ensures r.Some? ==> |r.value| == |p|
    ensures r.Some? ==> forall i :: 0 <= i < |p| ==>
      (r.value[i] == 0.0 <==> p[i] == 0.0 || !keep[i] || p[i] < num.pct25(Greater(p, 1.0)))
    ensures r.Some? ==> forall i :: 0 <= i < |p| && r.value[i] != 0.0 ==> r.value[i] == p[i]
  {
    var strong := Greater(p, 1.0);
    if |strong| == 0 then
      assert forall i :: 0 <= i < |p| ==> p[i] <= 1.0 by {
        forall i | 0 <= i < |p| ensures p[i] <= 1.0 {
          assert p[i] in p;
          assert p[i] !in strong;
        }
      }
      None
    else
      var pct := num.pct25(strong);
      assert strong[0] in strong;
      Some(seq(|p|, i requires 0 <= i < |p| => if p[i] < pct || !keep[i] then 0.0 else p[i]))
  }

  /** What survives the cut is a kept value above 1: the percentile of the
      values above 1 is itself above 1. */
  lemma CutSurvivors(p: seq<real>, keep: seq<bool>, num: Numerics)
    requires |keep| == |p| && PercentileInRange(num)
    requires PercentileCut(p, keep, num).Some?
    ensures forall i :: 0 <= i < |p| ==>
      var t := PercentileCut(p, keep, num).value;
      t[i] == 0.0 || (t[i] == p[i] && t[i] > 1.0 && keep[i])
  {
    var strong := Greater(p, 1.0);
    assert strong[0] in strong;
    var k :| 0 <= k < |strong| && strong[k] <= num.pct25(strong);
    assert strong[k] in strong;
  }

  /** Zeroing the invalid pixels of a map already zero there changes
      nothing. */
  lemma ZeroInvalidKeeps(t: seq<real>, invalid: seq<bool>)
    requires |t| == |invalid|
    requires forall i :: 0 <= i < |t| && invalid[i] ==> t[i] == 0.0
    ensures ZeroInvalid(t, invalid) == t
  {
  }

  /** A cut zeroed where invalid is non-negative, and zero on every invalid
      pixel: the form in which the strategies hand a cut to the marking
      loops. */
  lemma CutZeroInvalid(p: seq<real>, keep: seq<bool>, invalid: seq<bool>, num: Numerics)
    requires |keep| == |p| == |invalid| && PercentileInRange(num)
    requires PercentileCut(p, keep, num).Some?
    ensures forall i :: 0 <= i < |p| ==>
      var t := ZeroInvalid(PercentileCut(p, keep, num).value, invalid);
      t[i] >= 0.0 && (invalid[i] ==> t[i] == 0.0)
  {
    CutSurvivors(p, keep, num);
  }

  /* ---------------------------------------------------------------
     Components instead of labels
     --------------------------------------------------------------- */

  /** The number of pixels in the 4-connected component of `i`. */
  ghost function ComponentSize(w: nat, fg: seq<bool>, i: nat): nat
  {
    |set j: nat | j < |fg| && Connected(w, fg, i, j)|
  }

  /** `i` is the first pixel of its component, in row-major order, at which
      the image is coldest over the component. */
  ghost predicate IsFirstColdestOf(w: nat, fg: seq<bool>, img: seq<real>, i: nat)
    requires |img| == |fg|
  {
    && i < |fg| && fg[i]
    && (forall j {:trigger Connected(w, fg, i, j)} :: 0 <= j < |fg| && Connected(w, fg, i, j) ==> img[i] <= img[j])
    && (forall j {:trigger Connected(w, fg, i, j)} :: 0 <= j < i && Connected(w, fg, i, j) ==> img[i] < img[j])
  }

  /** `i` is the first pixel of its component at which the power peaks. */
  ghost predicate IsFirstStrongestOf(w: nat, fg: seq<bool>, p: seq<real>, i: nat)
    requires |p| == |fg|
  {
    && i < |fg| && fg[i]
    && (forall j {:trigger Connected(w, fg, i, j)} :: 0 <= j < |fg| && Connected(w, fg, i, j) ==> p[j] <= p[i])
    && (forall j {:trigger Connected(w, fg, i, j)} :: 0 <= j < i && Connected(w, fg, i, j) ==> p[j] < p[i])
  }

  lemma CountIsComponentSize(w: nat, fg: seq<bool>, lab: seq<nat>, i: nat)
    requires |lab| == |fg| && i < |fg|
    requires forall j :: 0 <= j < |fg| ==> (lab[j] == lab[i] <==> Connected(w, fg, i, j))
    ensures Count(lab, lab[i]) == ComponentSize(w, fg, i)
  {
    CountIsCard(lab, lab[i]);
    var byLabel := set j | 0 <= j < |lab| && lab[j] == lab[i];
    var byPath := set j: nat | j < |fg| && Connected(w, fg, i, j);
    assert byLabel == byPath by {
      forall j | j in byPath ensures j in byLabel {
        assert 0 <= j < |fg| && Connected(w, fg, i, j);
      }
    }
  }

  lemma ColdestByComponent(w: nat, fg: seq<bool>, lab: seq<nat>, img: seq<real>, i: nat)
    requires |lab| == |fg| && |img| == |fg| && i < |fg| && fg[i]
    requires forall j :: 0 <= j < |fg| ==> (lab[j] == lab[i] <==> Connected(w, fg, i, j))
    ensures IsFirstColdest(img, lab, lab[i], i) <==> IsFirstColdestOf(w, fg, img, i)
  {
  }

  lemma StrongestByComponent(w: nat, fg: seq<bool>, lab: seq<nat>, p: seq<real>, i: nat)
    requires |lab| == |fg| && |p| == |fg| && i < |fg| && fg[i]
    requires forall j :: 0 <= j < |fg| ==> (lab[j] == lab[i] <==> Connected(w, fg, i, j))
    ensures IsFirstStrongest(p, lab, lab[i], i) <==> IsFirstStrongestOf(w, fg, p, i)
  {
  }

  /* ---------------------------------------------------------------
     Marking a cut power map
     --------------------------------------------------------------- */

  /** Relabel the cut map `t` and run the arg-min loop of `sum`, `nflicsv2`
      and `ind` over it (powerUtils.py:235-251). */
  function MarkColdest(w: nat, t: seq<real>, img: seq<real>, area: seq<real>, fl: Floor): (r: seq<real>)
    requires |t| == |img| == |area|
    ensures |r| == |t|
  {
    SweepMin(t, Label(w, Nonzero(t)), img, area, fl, |t|)
  }

  /** The finished arg-min map `r` of the cut map `t`, component by
      component: pixels outside the components keep their power; a
      component below the noise floor is removed; every other component
      keeps its power except at its first coldest pixel, which holds the
      negated cloud area; and those markers are exactly the negative
      pixels. */
  ghost predicate MarkedColdest(w: nat, t: seq<real>, img: seq<real>, area: seq<real>, fl: Floor, r: seq<real>)
    requires |t| == |img| == |area| == |r|
  {
    var fg := Nonzero(t);
    forall i :: 0 <= i < |t| ==>
      && (t[i] == 0.0 ==> r[i] == 0.0)
      && (t[i] != 0.0 && BelowNoise(ComponentSize(w, fg, i), fl) ==> r[i] == 0.0)
      && (t[i] != 0.0 && !BelowNoise(ComponentSize(w, fg, i), fl) ==>
            r[i] == if IsFirstColdestOf(w, fg, img, i) then -area[i] else t[i])
      && (r[i] < 0.0 <==> t[i] != 0.0 && !BelowNoise(ComponentSize(w, fg, i), fl) && IsFirstColdestOf(w, fg, img, i))
  }

  /** The arg-min loop meets `MarkedColdest` on a non-negative map whose
      components lie under cold cloud of positive area. */
  lemma MarkColdestSpec(w: nat, t: seq<real>, img: seq<real>, area: seq<real>, fl: Floor)
    requires |t| == |img| == |area|
    requires forall i :: 0 <= i < |t| ==> t[i] >= 0.0
    requires forall i :: 0 <= i < |t| && t[i] != 0.0 ==> img[i] < 0.0 && area[i] > 0.0
    ensures MarkedColdest(w, t, img, area, fl, MarkColdest(w, t, img, area, fl))
  {
    var fg := Nonzero(t);
    var lab := Label(w, fg);
    LabelBackground(w, fg);
    SweepMinFinal(t, lab, img, area, fl);
    forall i | 0 <= i < |t| && t[i] != 0.0
      ensures Count(lab, lab[i]) == ComponentSize(w, fg, i)
      ensures i == Coldest(img, lab, lab[i]) <==> IsFirstColdestOf(w, fg, img, i)
    {
      LabelSharedByComponent(w, fg, i);
      CountIsComponentSize(w, fg, lab, i);
      assert lab[i] in lab;
      ColdestIsFirstColdest(img, lab, lab[i], i);
      ColdestByComponent(w, fg, lab, img, i);
    }
  }

  /** Relabel the cut map and run the arg-max loop of `nflics`
      (powerUtils.py:50-60). */
  function MarkStrongest(w: nat, t: seq<real>, area: seq<real>): (r: seq<real>)
    requires |t| == |area|
    ensures |r| == |t|
  {
    SweepMax(t, Label(w, Nonzero(t)), area, |t|)
  }

  /** The finished nflics map `r` of the cut map `t`: every component
      carries the negated cloud area at its first strongest pixel, every
      other pixel keeps its power, and those markers are exactly the pixels
      that change. */
  ghost predicate MarkedStrongest(w: nat, t: seq<real>, area: seq<real>, r: seq<real>)
    requires |t| == |area| == |r|
  {
    var fg := Nonzero(t);
    forall i :: 0 <= i < |t| ==>
      && r[i] == (if t[i] != 0.0 && IsFirstStrongestOf(w, fg, t, i) then -area[i] else t[i])
      && (r[i] != t[i] <==> t[i] != 0.0 && IsFirstStrongestOf(w, fg, t, i))
  }

  /** The arg-max loop meets `MarkedStrongest` on a non-negative map with
      non-negative areas. */
  lemma MarkStrongestSpec(w: nat, t: seq<real>, area: seq<real>)
    requires |t| == |area|
    requires forall i :: 0 <= i < |t| ==> t[i] >= 0.0 && area[i] >= 0.0
    ensures MarkedStrongest(w, t, area, MarkStrongest(w, t, area))
  {
    var fg := Nonzero(t);
    var lab := Label(w, fg);
    LabelBackground(w, fg);
    SweepMaxClosed(t, lab, area, |t|);
    forall i | 0 <= i < |t| && t[i] != 0.0
      ensures i == Strongest(t, lab, lab[i]) <==> IsFirstStrongestOf(w, fg, t, i)
    {
      LabelSharedByComponent(w, fg, i);
      assert lab[i] in lab;
      StrongestIsFirstStrongest(t, lab, lab[i], i);
      StrongestByComponent(w, fg, lab, t, i);
    }
  }

  /** `r` is the first pixel, in row-major order, of its component. */
  ghost predicate IsRoot(w: nat, fg: seq<bool>, r: nat)
  {
    && r < |fg| && fg[r]
    && forall j {:trigger Connected(w, fg, r, j)} :: 0 <= j < |fg| && Connected(w, fg, r, j) ==> r <= j
  }

  /** The first pixels of the components that pass the noise floor: one
      per surviving component. */
  ghost function Survivors(w: nat, fg: seq<bool>, fl: Floor): set<nat>
  {
    set r: nat | r < |fg| && IsRoot(w, fg, r) && !BelowNoise(ComponentSize(w, fg, r), fl)
  }

  /** The label of a component is one more than its first pixel. */
  lemma LabelOfRoot(w: nat, fg: seq<bool>, r: nat)
    requires IsRoot(w, fg, r)
    ensures Label(w, fg)[r] == r + 1
  {
    LabelFirst(w, fg, r);
    var k: nat := Label(w, fg)[r] - 1;
    ConnectedRefl(w, fg, r);
    assert k <= r;
    assert Connected(w, fg, r, k);
    ConnectedEnds(w, fg, r, k);
    assert r <= k;
  }

  /** The pixel `Label(..)[i] - 1` is the first pixel of the component of `i`. */
  lemma RootOfLabel(w: nat, fg: seq<bool>, i: nat)
    requires i < |fg| && fg[i]
    ensures Label(w, fg)[i] >= 1
    ensures IsRoot(w, fg, Label(w, fg)[i] - 1)
    ensures Connected(w, fg, i, Label(w, fg)[i] - 1)
  {
    var lab := Label(w, fg);
    LabelFirst(w, fg, i);
    var r: nat := lab[i] - 1;
    assert FirstOfComponent(w, fg, i, r);
    FirstIsRoot(w, fg, i, r);
  }

  /** The first pixel of the component of `i` is a first pixel. */
  lemma FirstIsRoot(w: nat, fg: seq<bool>, i: nat, r: nat)
    requires FirstOfComponent(w, fg, i, r)
    ensures IsRoot(w, fg, r)
  {
    ConnectedEnds(w, fg, i, r);
    forall j | 0 <= j < |fg| && Connected(w, fg, r, j)
      ensures r <= j
    {
      ConnectedTrans(w, fg, i, r, j);
    }
  }

  /** Every element of `s` plus one. */
  function Shift(s: set<nat>): set<nat>
  {
    set r | r in s :: r + 1
  }

  /** Shifting a set of naturals by one keeps its size. */
  lemma ShiftCard(s: set<nat>)
    ensures |Shift(s)| == |s|
    decreases |s|
  {
    if s != {} {
      var x :| x in s;
      var rest := s - {x};
      ShiftCard(rest);
      assert x + 1 !in Shift(rest);
      assert Shift(s) == Shift(rest) + {x + 1} by {
        forall y | y in Shift(s) ensures y in Shift(rest) + {x + 1} {
          var r :| r in s && y == r + 1;
          if r != x {
            assert r in rest;
          }
        }
        forall y | y in Shift(rest) + {x + 1} ensures y in Shift(s) {
          if y != x + 1 {
            var r :| r in rest && y == r + 1;
            assert r in s;
          }
        }
      }
    }
  }

  lemma ShiftWithin(s: set<nat>, t: set<nat>)
    requires forall r :: r in s ==> r + 1 in t
    ensures Shift(s) <= t
  {
  }

  /** A label that passes the noise floor names a surviving component's
      first pixel. */
  lemma KeptIsSurvivor(w: nat, fg: seq<bool>, fl: Floor, k: nat)
    requires k in Kept(Label(w, fg), fl, |fg|)
    ensures k >= 1 && k - 1 in Survivors(w, fg, fl)
  {
    var lab := Label(w, fg);
    var i :| 0 <= i < |lab| && lab[i] == k;
    LabelBackground(w, fg);
    RootOfLabel(w, fg, i);
    var r := k - 1;
    LabelOfRoot(w, fg, r);
    CountOfRoot(w, fg, r);
  }

  /** The pixel count of the label of a component is the component's size. */
  lemma CountOfRoot(w: nat, fg: seq<bool>, r: nat)
    requires IsRoot(w, fg, r)
    ensures Count(Label(w, fg), Label(w, fg)[r]) == ComponentSize(w, fg, r)
  {
    LabelSharedByComponent(w, fg, r);
    CountIsComponentSize(w, fg, Label(w, fg), r);
  }

  /** A surviving component's first pixel, plus one, is a label that
      passes the noise floor. */
  lemma SurvivorIsKept(w: nat, fg: seq<bool>, fl: Floor, r: nat)
    requires r in Survivors(w, fg, fl)
    ensures r + 1 in Kept(Label(w, fg), fl, |fg|)
  {
    var lab := Label(w, fg);
    assert IsRoot(w, fg, r) && !BelowNoise(ComponentSize(w, fg, r), fl);
    LabelOfRoot(w, fg, r);
    CountOfRoot(w, fg, r);
    assert lab[r] in lab;
  }

  /** The labels that pass the noise floor are the surviving components'
      first pixels, shifted by one. */
  lemma KeptAreSurvivors(w: nat, fg: seq<bool>, fl: Floor)
    ensures Kept(Label(w, fg), fl, |fg|) == Shift(Survivors(w, fg, fl))
  {
    KeptWithinSurvivors(w, fg, fl);
    SurvivorsWithinKept(w, fg, fl);
  }

  lemma KeptWithinSurvivors(w: nat, fg: seq<bool>, fl: Floor)
    ensures Kept(Label(w, fg), fl, |fg|) <= Shift(Survivors(w, fg, fl))
  {
    var survivors := Survivors(w, fg, fl);
    forall k | k in Kept(Label(w, fg), fl, |fg|)
      ensures k in Shift(survivors)
    {
      KeptIsSurvivor(w, fg, fl, k);
      assert k == (k - 1) + 1;
    }
  }

  lemma SurvivorsWithinKept(w: nat, fg: seq<bool>, fl: Floor)
    ensures Shift(Survivors(w, fg, fl)) <= Kept(Label(w, fg), fl, |fg|)
  {
    var survivors := Survivors(w, fg, fl);
    forall r | r in survivors
      ensures r + 1 in Kept(Label(w, fg), fl, |fg|)
    {
      SurvivorIsKept(w, fg, fl, r);
    }
    ShiftWithin(survivors, Kept(Label(w, fg), fl, |fg|));
  }

  /** Relabel the cut map and run the loop of `nflics3k`
      (powerUtils.py:91-118). */
  function MarkCores(w: nat, t: seq<real>, area: seq<real>, co: Coords, fl: Floor): (r: Found)
    requires |t| == |area| && CoordsFit(co, w, |t|)
    ensures |r.power| == |t|
    ensures Parallel(r.cores)
  {
    Sweep3k(t, Label(w, Nonzero(t)), area, co, w, fl, |t|)
  }

  /** The elements of `s` below `n`, in increasing order. */
  function Ascending(s: set<nat>, n: nat): seq<nat>
  {
    if n == 0 then []
    else Ascending(s, n - 1) + (if n - 1 in s then [n - 1] else [])
  }

  /** `Ascending` lists exactly the elements of `s` below `n`. */
  lemma {:induction false} AscendingMembers(s: set<nat>, n: nat)
    ensures forall r :: r in Ascending(s, n) <==> r < n && r in s
  {
    if n > 0 {
      AscendingMembers(s, n - 1);
      assert forall r :: r in Ascending(s, n) <==> r in Ascending(s, n - 1) || (r == n - 1 && n - 1 in s);
    }
  }

  /** `Ascending` lists its elements in increasing order, so each once. */
  lemma {:induction false} AscendingSorted(s: set<nat>, n: nat)
    ensures forall a, b :: 0 <= a < b < |Ascending(s, n)| ==> Ascending(s, n)[a] < Ascending(s, n)[b]
  {
    if n > 0 {
      var prev := Ascending(s, n - 1);
      AscendingSorted(s, n - 1);
      AscendingMembers(s, n - 1);
      if n - 1 in s {
        var cur := prev + [n - 1];
        assert Ascending(s, n) == cur;
        forall a, b | 0 <= a < b < |cur|
          ensures cur[a] < cur[b]
        {
          assert cur[a] == prev[a] && prev[a] in prev;
          if b < |prev| {
            assert cur[b] == prev[b];
          }
        }
      }
    }
  }

  /** When label `r + 1` passes exactly when `r` is in `s`, the labels
      that pass, in order, are the elements of `s`, in order, plus one. */
  lemma {:induction false} KeptSeqAscending(lab: seq<nat>, fl: Floor, s: set<nat>, c: nat)
    requires forall r: nat :: r < c ==> (Passes(lab, fl, r + 1) <==> r in s)
    ensures |KeptSeq(lab, fl, c)| == |Ascending(s, c)|
    ensures forall k :: 0 <= k < |Ascending(s, c)| ==> KeptSeq(lab, fl, c)[k] == Ascending(s, c)[k] + 1
  {
    if c > 0 {
      var ks := KeptSeq(lab, fl, c - 1);
      var rs := Ascending(s, c - 1);
      KeptSeqAscending(lab, fl, s, c - 1);
      assert c - 1 in s <==> Passes(lab, fl, c);
      if c - 1 in s {
        ShiftedAppend(ks, rs, c - 1);
      }
    }
  }

  lemma ShiftedAppend(ks: seq<nat>, rs: seq<nat>, r: nat)
    requires |ks| == |rs| && forall k :: 0 <= k < |rs| ==> ks[k] == rs[k] + 1
    ensures forall k :: 0 <= k < |rs| + 1 ==> (ks + [r + 1])[k] == (rs + [r])[k] + 1
  {
  }

  /** The first pixels of the surviving components, in increasing order:
      the order in which nflics3k reports their cores. */
  ghost function SurvivorSeq(w: nat, fg: seq<bool>, fl: Floor): seq<nat>
  {
    Ascending(Survivors(w, fg, fl), |fg|)
  }

  /** Label `r + 1` is visited and passes the noise floor exactly when the
      component whose first pixel is `r` survives. */
  lemma KeptStep(w: nat, fg: seq<bool>, fl: Floor, r: nat)
    requires r < |fg|
    ensures Passes(Label(w, fg), fl, r + 1) <==> r in Survivors(w, fg, fl)
  {
    var lab := Label(w, fg);
    if Passes(lab, fl, r + 1) {
      assert r + 1 in Kept(lab, fl, |fg|);
      KeptIsSurvivor(w, fg, fl, r + 1);
    }
    if r in Survivors(w, fg, fl) {
      SurvivorIsKept(w, fg, fl, r);
    }
  }

  /** Visiting labels in order is visiting surviving components by their
      first pixel in order: label `k` is first pixel `k - 1`. */
  lemma KeptSeqIsSurvivorSeq(w: nat, fg: seq<bool>, fl: Floor)
    ensures |KeptSeq(Label(w, fg), fl, |fg|)| == |SurvivorSeq(w, fg, fl)|
    ensures forall k :: 0 <= k < |SurvivorSeq(w, fg, fl)| ==>
      KeptSeq(Label(w, fg), fl, |fg|)[k] == SurvivorSeq(w, fg, fl)[k] + 1
  {
    var lab := Label(w, fg);
    var s := Survivors(w, fg, fl);
    forall r: nat | r < |fg|
      ensures Passes(lab, fl, r + 1) <==> r in s
    {
      KeptStep(w, fg, fl, r);
    }
    KeptSeqAscending(lab, fl, s, |fg|);
  }

  /** Entry `k` of the core list `m` lies at the first strongest pixel of
      the component whose first pixel is `r`. */
  ghost predicate CoreOfComponent(w: nat, t: seq<real>, area: seq<real>, co: Coords, m: MaxPos, k: nat, r: nat)
    requires |t| == |area| && CoordsFit(co, w, |t|)
  {
    exists pos :: 0 <= pos < |t| && Connected(w, Nonzero(t), r, pos)
      && IsFirstStrongestOf(w, Nonzero(t), t, pos) && EntryAt(m, k, co, w, area, pos)
  }

  /** The entry the loop writes for label `r + 1` lies at the first
      strongest pixel of the component of `r`. */
  lemma CoreAtStrongest(w: nat, t: seq<real>, area: seq<real>, co: Coords, fl: Floor, m: MaxPos, k: nat, r: nat)
    requires |t| == |area| && CoordsFit(co, w, |t|)
    requires forall i :: 0 <= i < |t| ==> t[i] >= 0.0
    requires r in Survivors(w, Nonzero(t), fl) && r + 1 in Label(w, Nonzero(t))
    requires EntryAt(m, k, co, w, area, Strongest(t, Label(w, Nonzero(t)), r + 1))
    ensures CoreOfComponent(w, t, area, co, m, k, r)
  {
    var pos := Strongest(t, Label(w, Nonzero(t)), r + 1);
    StrongestInComponent(w, t, r);
    StrongestOfComponent(w, t, pos);
  }

  /** The strongest pixel of label `r + 1` is in the component of `r`. */
  lemma StrongestInComponent(w: nat, t: seq<real>, r: nat)
    requires forall i :: 0 <= i < |t| ==> t[i] >= 0.0
    requires IsRoot(w, Nonzero(t), r) && r + 1 in Label(w, Nonzero(t))
    ensures |t| > 0
    ensures
      var lab := Label(w, Nonzero(t));
      var pos := Strongest(t, lab, r + 1);
      && IsFirstStrongest(t, lab, r + 1, pos)
      && Connected(w, Nonzero(t), r, pos)
  {
    var fg := Nonzero(t);
    var lab := Label(w, fg);
    LabelBackground(w, fg);
    StrongestIsFirstStrongest(t, lab, r + 1, 0);
    LabelOfRoot(w, fg, r);
    LabelSharedByComponent(w, fg, r);
  }

  /** A first strongest pixel of its label is a first strongest pixel of
      its component. */
  lemma StrongestOfComponent(w: nat, t: seq<real>, pos: nat)
    requires pos < |t| && IsFirstStrongest(t, Label(w, Nonzero(t)), Label(w, Nonzero(t))[pos], pos)
    requires Label(w, Nonzero(t))[pos] > 0
    ensures IsFirstStrongestOf(w, Nonzero(t), t, pos)
  {
    var fg := Nonzero(t);
    LabelBackground(w, fg);
    LabelSharedByComponent(w, fg, pos);
    StrongestByComponent(w, fg, Label(w, fg), t, pos);
  }

  /** The finished nflics3k result `f` of the cut map `t`: components
      below the noise floor are removed and nothing else changes, so a
      non-negative map stays non-negative; the three core lists hold one
      entry per component that passes the noise floor, ordered by the
      component's first pixel, with the coordinates and cloud area of the
      component's first strongest pixel. */
  ghost predicate MarkedCores(w: nat, t: seq<real>, area: seq<real>, co: Coords, fl: Floor, f: Found)
    requires |t| == |f.power| == |area| && CoordsFit(co, w, |t|)
  {
    && |f.cores.lat| == |f.cores.lon| == |f.cores.areaPixels| == |Survivors(w, Nonzero(t), fl)|
    && |f.cores.lat| == |SurvivorSeq(w, Nonzero(t), fl)|
    && (forall i :: 0 <= i < |t| ==> f.power[i] >= 0.0)
    && (forall i :: 0 <= i < |t| ==>
          f.power[i] == if t[i] != 0.0 && BelowNoise(ComponentSize(w, Nonzero(t), i), fl) then 0.0 else t[i])
    && forall k :: 0 <= k < |f.cores.lat| ==>
         CoreOfComponent(w, t, area, co, f.cores, k, SurvivorSeq(w, Nonzero(t), fl)[k])
  }

  lemma MarkCoresSpec(w: nat, t: seq<real>, area: seq<real>, co: Coords, fl: Floor)
    requires |t| == |area| && CoordsFit(co, w, |t|)
    requires forall i :: 0 <= i < |t| ==> t[i] >= 0.0
    ensures MarkedCores(w, t, area, co, fl, MarkCores(w, t, area, co, fl))
  {
    MarkCoresCount(w, t, area, co, fl);
    MarkCoresPower(w, t, area, co, fl);
    MarkCoresEntries(w, t, area, co, fl);
  }

  /** One core entry per surviving component. */
  lemma MarkCoresCount(w: nat, t: seq<real>, area: seq<real>, co: Coords, fl: Floor)
    requires |t| == |area| && CoordsFit(co, w, |t|)
    requires forall i :: 0 <= i < |t| ==> t[i] >= 0.0
    ensures |MarkCores(w, t, area, co, fl).cores.areaPixels| == |Survivors(w, Nonzero(t), fl)|
  {
    var fg := Nonzero(t);
    var lab := Label(w, fg);
    LabelBackground(w, fg);
    Sweep3kClosed(t, lab, area, co, w, fl, |t|);
    KeptAreSurvivors(w, fg, fl);
    ShiftCard(Survivors(w, fg, fl));
  }

  /** The power field of `MarkCores`: components below the noise floor are
      zeroed, every other pixel keeps its power. */
  lemma MarkCoresPower(w: nat, t: seq<real>, area: seq<real>, co: Coords, fl: Floor)
    requires |t| == |area| && CoordsFit(co, w, |t|)
    requires forall i :: 0 <= i < |t| ==> t[i] >= 0.0
    ensures forall i :: 0 <= i < |t| ==>
      MarkCores(w, t, area, co, fl).power[i] ==
        if t[i] != 0.0 && BelowNoise(ComponentSize(w, Nonzero(t), i), fl) then 0.0 else t[i]
  {
    var fg := Nonzero(t);
    var lab := Label(w, fg);
    LabelBackground(w, fg);
    Sweep3kClosed(t, lab, area, co, w, fl, |t|);
    forall i | 0 <= i < |t| && t[i] != 0.0
      ensures Count(lab, lab[i]) == ComponentSize(w, fg, i)
    {
      LabelSharedByComponent(w, fg, i);
      CountIsComponentSize(w, fg, lab, i);
    }
  }

  /** The core entries of `MarkCores`, one per surviving component in
      order of first pixel. */
  lemma MarkCoresEntries(w: nat, t: seq<real>, area: seq<real>, co: Coords, fl: Floor)
    requires |t| == |area| && CoordsFit(co, w, |t|)
    requires forall i :: 0 <= i < |t| ==> t[i] >= 0.0
    ensures |MarkCores(w, t, area, co, fl).cores.lat| == |SurvivorSeq(w, Nonzero(t), fl)|
    ensures forall k :: 0 <= k < |SurvivorSeq(w, Nonzero(t), fl)| ==>
      CoreOfComponent(w, t, area, co, MarkCores(w, t, area, co, fl).cores, k, SurvivorSeq(w, Nonzero(t), fl)[k])
  {
    var fg := Nonzero(t);
    LabelBackground(w, fg);
    Sweep3kCores(t, Label(w, fg), area, co, w, fl, |t|);
    CoresOfSurvivors(w, t, area, co, fl, MarkCores(w, t, area, co, fl).cores);
  }

  /** A core list in label order is a core list in order of the surviving
      components' first pixels. */
  lemma CoresOfSurvivors(w: nat, t: seq<real>, area: seq<real>, co: Coords, fl: Floor, m: MaxPos)
    requires |t| == |area| && CoordsFit(co, w, |t|)
    requires forall i :: 0 <= i < |t| ==> t[i] >= 0.0
    requires CoresFor(m, KeptSeq(Label(w, Nonzero(t)), fl, |t|), t, Label(w, Nonzero(t)), area, co, w)
    ensures |m.lat| == |SurvivorSeq(w, Nonzero(t), fl)|
    ensures forall k :: 0 <= k < |SurvivorSeq(w, Nonzero(t), fl)| ==>
      CoreOfComponent(w, t, area, co, m, k, SurvivorSeq(w, Nonzero(t), fl)[k])
  {
    var fg := Nonzero(t);
    var lab := Label(w, fg);
    var roots := SurvivorSeq(w, fg, fl);
    var ks := KeptSeq(lab, fl, |t|);
    KeptSeqIsSurvivorSeq(w, fg, fl);
    AscendingMembers(Survivors(w, fg, fl), |t|);
    forall k | 0 <= k < |roots|
      ensures CoreOfComponent(w, t, area, co, m, k, roots[k])
    {
      assert roots[k] in roots;
      assert ks[k] == roots[k] + 1;
      CoreAtStrongest(w, t, area, co, fl, m, k, roots[k]);
    }
  }
}

/** Connected-component labelling of the non-zero pixels of a grid, the
    role scipy's `ndimage.label` plays in cores.py:64 and in every
    weighting strategy of powerUtils.py.

    Every foreground pixel starts with label `1 + its own index`; repeated
    passes replace each label by the smallest label among the pixel and its
    foreground 4-neighbours until nothing changes. At the fixpoint each
    component carries `1 + the row-major index of its first pixel`, so labels
    increase in order of first appearance exactly as scipy numbers them
    (scipy uses 1, 2, 3, ... instead; only the order matters to the
    callers, which visit labels in increasing order). */
module Labelling {
  import opened Grids

  /** The labelling specification: background is 0, two foreground pixels
      share a label exactly when they are connected, and the label of a
      component is one more than the row-major index of its first pixel. */
  ghost predicate IsComponentLabelling(w: nat, fg: seq<bool>, lab: seq<nat>)
  {
    && |lab| == |fg|
    && (forall i :: 0 <= i < |fg| ==> (lab[i] == 0 <==> !fg[i]))
    && (forall i, j {:trigger lab[i], lab[j]} :: 0 <= i < |fg| && 0 <= j < |fg| && fg[i] && fg[j] ==>
          (lab[i] == lab[j] <==> Connected(w, fg, i, j)))
    && (forall i {:trigger lab[i]} :: 0 <= i < |fg| && fg[i] ==> FirstOfComponent(w, fg, i, lab[i] - 1))
  }

  /** `r` is the smallest index connected to `i`. */
  ghost predicate FirstOfComponent(w: nat, fg: seq<bool>, i: nat, r: int)
  {
    && 0 <= r
    && Connected(w, fg, i, r)
    && forall j {:trigger Connected(w, fg, i, j)} :: 0 <= j < |fg| && Connected(w, fg, i, j) ==> r <= j
  }

  function MinNat(a: nat, b: nat): nat
  {
    if a <= b then a else b
  }

  /** One propagation step at pixel `i`. */
  function RelaxAt(w: nat, fg: seq<bool>, lab: seq<nat>, i: nat): nat
    requires |lab| == |fg| && i < |fg|
  {
    if !fg[i] then 0
    else
      var a := lab[i];
      var a := if i >= 1 && HAdj(w, i - 1, i) && fg[i - 1] then MinNat(a, lab[i - 1]) else a;
      var a := if i + 1 < |fg| && HAdj(w, i, i + 1) && fg[i + 1] then MinNat(a, lab[i + 1]) else a;
      var a := if w > 0 && i >= w && fg[i - w] then MinNat(a, lab[i - w]) else a;
      var a := if w > 0 && i + w < |fg| && fg[i + w] then MinNat(a, lab[i + w]) else a;
      a
  }

  function Relax(w: nat, fg: seq<bool>, lab: seq<nat>): (r: seq<nat>)
    requires |lab| == |fg|
    ensures |r| == |fg|
  {
    seq(|fg|, i requires 0 <= i < |fg| => RelaxAt(w, fg, lab, i))
  }

  function Initial(fg: seq<bool>): (lab: seq<nat>)
    ensures |lab| == |fg|
  {
    seq(|fg|, i requires 0 <= i < |fg| => if fg[i] then i + 1 else 0)
  }

  function SumNat(s: seq<nat>): nat
  {
    if |s| == 0 then 0 else s[0] + SumNat(s[1..])
  }

  lemma SumNatStrict(a: seq<nat>, b: seq<nat>)
    requires |a| == |b|
    requires forall i :: 0 <= i < |a| ==> a[i] <= b[i]
    requires a != b
    ensures SumNat(a) < SumNat(b)
  {
    var k :| 0 <= k < |a| && a[k] != b[k];
    SumNatStrictAt(a, b, k);
  }

  lemma {:induction false} SumNatStrictAt(a: seq<nat>, b: seq<nat>, k: nat)
    requires |a| == |b|
    requires forall i :: 0 <= i < |a| ==> a[i] <= b[i]
    requires k < |a| && a[k] < b[k]
    ensures SumNat(a) < SumNat(b)
  {
    if k == 0 {
      SumNatLe(a[1..], b[1..]);
    } else {
      SumNatStrictAt(a[1..], b[1..], k - 1);
    }
  }

  lemma {:induction false} SumNatLe(a: seq<nat>, b: seq<nat>)
    requires |a| == |b|
    requires forall i :: 0 <= i < |a| ==> a[i] <= b[i]
    ensures SumNat(a) <= SumNat(b)
  {
    if |a| > 0 {
      SumNatLe(a[1..], b[1..]);
    }
  }

  lemma RelaxLowers(w: nat, fg: seq<bool>, lab: seq<nat>)
    requires |lab| == |fg|
    requires forall i :: 0 <= i < |fg| && !fg[i] ==> lab[i] == 0
    ensures forall i :: 0 <= i < |fg| ==> Relax(w, fg, lab)[i] <= lab[i]
  {
  }

  /** No propagation step changes any label. */
  predicate IsFixpoint(w: nat, fg: seq<bool>, lab: seq<nat>)
  {
    && |lab| == |fg|
    && forall i {:trigger RelaxAt(w, fg, lab, i)} :: 0 <= i < |fg| ==> RelaxAt(w, fg, lab, i) == lab[i]
  }

  /** Propagates labels until a fixpoint is reached. */
  function Fix(w: nat, fg: seq<bool>, lab: seq<nat>): (r: seq<nat>)
    requires |lab| == |fg|
    requires forall i :: 0 <= i < |fg| && !fg[i] ==> lab[i] == 0
    ensures IsFixpoint(w, fg, r)
    decreases SumNat(lab)
  {
    var next := Relax(w, fg, lab);
    if next == lab then
      assert forall i :: 0 <= i < |fg| ==> next[i] == RelaxAt(w, fg, lab, i);
      lab
    else
      RelaxLowers(w, fg, lab);
      SumNatStrict(next, lab);
      Fix(w, fg, next)
  }

  /** The component labelling of the foreground pixels `fg` of a grid of
      width `w`. */
  function Label(w: nat, fg: seq<bool>): (lab: seq<nat>)
    ensures |lab| == |fg|
  {
    Fix(w, fg, Initial(fg))
  }

  /** The propagation invariant: every foreground label points, by
      connectivity, at a pixel no later than the pixel itself. */
  ghost predicate Sound(w: nat, fg: seq<bool>, lab: seq<nat>)
  {
    && |lab| == |fg|
    && (forall i :: 0 <= i < |fg| && !fg[i] ==> lab[i] == 0)
    && (forall i {:trigger lab[i]} :: 0 <= i < |fg| && fg[i] ==> 1 <= lab[i] <= i + 1 && Connected(w, fg, i, lab[i] - 1))
  }

  lemma InitialSound(w: nat, fg: seq<bool>)
    ensures Sound(w, fg, Initial(fg))
  {
    forall i | 0 <= i < |fg| && fg[i] ensures Connected(w, fg, i, Initial(fg)[i] - 1) {
      ConnectedRefl(w, fg, i);
    }
  }

  /** The value chosen at `i` comes from `i` itself or from a foreground
      neighbour. */
  lemma RelaxAtSource(w: nat, fg: seq<bool>, lab: seq<nat>, i: nat) returns (j: nat)
    requires |lab| == |fg| && i < |fg| && fg[i]
    ensures j < |fg| && fg[j] && RelaxAt(w, fg, lab, i) == lab[j]
    ensures j == i || Adjacent(w, i, j)
  {
    var a0 := lab[i];
    var a1 := if i >= 1 && HAdj(w, i - 1, i) && fg[i - 1] then MinNat(a0, lab[i - 1]) else a0;
    var a2 := if i + 1 < |fg| && HAdj(w, i, i + 1) && fg[i + 1] then MinNat(a1, lab[i + 1]) else a1;
    var a3 := if w > 0 && i >= w && fg[i - w] then MinNat(a2, lab[i - w]) else a2;
    var a4 := if w > 0 && i + w < |fg| && fg[i + w] then MinNat(a3, lab[i + w]) else a3;
    assert RelaxAt(w, fg, lab, i) == a4;
    if w > 0 && i + w < |fg| && fg[i + w] && a4 == lab[i + w] {
      j := i + w;
    } else if w > 0 && i >= w && fg[i - w] && a3 == lab[i - w] && a4 == a3 {
      j := i - w;
    } else if i + 1 < |fg| && HAdj(w, i, i + 1) && fg[i + 1] && a2 == lab[i + 1] && a4 == a2 {
      j := i + 1;
    } else if i >= 1 && HAdj(w, i - 1, i) && fg[i - 1] && a1 == lab[i - 1] && a4 == a1 {
      j := i - 1;
    } else {
      j := i;
    }
  }

  /** The value chosen at `i` is no larger than any foreground neighbour's. */
  lemma RelaxAtBound(w: nat, fg: seq<bool>, lab: seq<nat>, i: nat, j: nat)
    requires |lab| == |fg| && i < |fg| && fg[i] && j < |fg| && fg[j] && Adjacent(w, i, j)
    ensures RelaxAt(w, fg, lab, i) <= lab[j]
  {
    if HAdj(w, j, i) {
      assert j == i - 1;
    } else if HAdj(w, i, j) {
      assert j == i + 1;
    } else if VAdj(w, j, i) {
      assert j == i - w;
    } else {
      assert j == i + w;
    }
  }

  lemma RelaxSoundAt(w: nat, fg: seq<bool>, lab: seq<nat>, i: nat)
    requires Sound(w, fg, lab) && i < |fg|
    ensures !fg[i] ==> Relax(w, fg, lab)[i] == 0
    ensures fg[i] ==> 1 <= Relax(w, fg, lab)[i] <= i + 1 && Connected(w, fg, i, Relax(w, fg, lab)[i] - 1)
  {
    var next := Relax(w, fg, lab);
    assert next[i] == RelaxAt(w, fg, lab, i);
    if fg[i] {
      var j := RelaxAtSource(w, fg, lab, i);
      if j != i {
        ConnectedStep(w, fg, i, j, lab[j] - 1);
      }
      assert RelaxAt(w, fg, lab, i) <= lab[i];
    }
  }

  lemma RelaxSound(w: nat, fg: seq<bool>, lab: seq<nat>)
    requires Sound(w, fg, lab)
    ensures Sound(w, fg, Relax(w, fg, lab))
  {
    forall i | 0 <= i < |fg|
      ensures !fg[i] ==> Relax(w, fg, lab)[i] == 0
      ensures fg[i] ==> 1 <= Relax(w, fg, lab)[i] <= i + 1 && Connected(w, fg, i, Relax(w, fg, lab)[i] - 1)
    {
      RelaxSoundAt(w, fg, lab, i);
    }
  }

  lemma {:induction false} FixSound(w: nat, fg: seq<bool>, lab: seq<nat>)
    requires Sound(w, fg, lab)
    ensures Sound(w, fg, Fix(w, fg, lab))
    decreases SumNat(lab)
  {
    var next := Relax(w, fg, lab);
    if next != lab {
      RelaxSound(w, fg, lab);
      RelaxLowers(w, fg, lab);
      SumNatStrict(next, lab);
      FixSound(w, fg, next);
    }
  }

  /** At a fixpoint, adjacent foreground pixels carry the same label. */
  lemma FixpointAgrees(w: nat, fg: seq<bool>, lab: seq<nat>)
    requires Sound(w, fg, lab) && IsFixpoint(w, fg, lab)
    ensures forall a, b :: 0 <= a < |fg| && 0 <= b < |fg| && fg[a] && fg[b] && Adjacent(w, a, b) ==> lab[a] == lab[b]
  {
    forall a, b | 0 <= a < |fg| && 0 <= b < |fg| && fg[a] && fg[b] && Adjacent(w, a, b)
      ensures lab[a] == lab[b]
    {
      RelaxAtBound(w, fg, lab, a, b);
      RelaxAtBound(w, fg, lab, b, a);
    }
  }

  /** At a sound fixpoint, equal labels and connectivity coincide. */
  lemma FixpointSameLabel(w: nat, fg: seq<bool>, lab: seq<nat>, i: nat, j: nat)
    requires Sound(w, fg, lab)
    requires forall a, b :: 0 <= a < |fg| && 0 <= b < |fg| && fg[a] && fg[b] && Adjacent(w, a, b) ==> lab[a] == lab[b]
    requires i < |fg| && j < |fg| && fg[i] && fg[j]
    ensures lab[i] == lab[j] <==> Connected(w, fg, i, j)
  {
    if Connected(w, fg, i, j) {
      ConstantOnConnected(w, fg, lab, i, j);
    }
    if lab[i] == lab[j] {
      ConnectedSym(w, fg, j, lab[j] - 1);
      ConnectedTrans(w, fg, i, lab[i] - 1, j);
    }
  }

  lemma FixpointFirst(w: nat, fg: seq<bool>, lab: seq<nat>, i: nat)
    requires Sound(w, fg, lab)
    requires forall a, b :: 0 <= a < |fg| && 0 <= b < |fg| && fg[a] && fg[b] && Adjacent(w, a, b) ==> lab[a] == lab[b]
    requires i < |fg| && fg[i]
    ensures FirstOfComponent(w, fg, i, lab[i] - 1)
  {
    forall j | 0 <= j < |fg| && Connected(w, fg, i, j) ensures lab[i] - 1 <= j {
      ConnectedEnds(w, fg, i, j);
      ConstantOnConnected(w, fg, lab, i, j);
    }
  }

  lemma SoundFixpointIsLabelling(w: nat, fg: seq<bool>, lab: seq<nat>)
    requires Sound(w, fg, lab) && IsFixpoint(w, fg, lab)
    ensures IsComponentLabelling(w, fg, lab)
  {
    FixpointAgrees(w, fg, lab);
    forall i, j | 0 <= i < |fg| && 0 <= j < |fg| && fg[i] && fg[j]
      ensures lab[i] == lab[j] <==> Connected(w, fg, i, j)
    {
      FixpointSameLabel(w, fg, lab, i, j);
    }
    forall i | 0 <= i < |fg| && fg[i] ensures FirstOfComponent(w, fg, i, lab[i] - 1) {
      FixpointFirst(w, fg, lab, i);
    }
  }

  /** `Label` meets the component-labelling specification. */
  lemma LabelCorrect(w: nat, fg: seq<bool>)
    ensures IsComponentLabelling(w, fg, Label(w, fg))
  {
    InitialSound(w, fg);
    FixSound(w, fg, Initial(fg));
    SoundFixpointIsLabelling(w, fg, Label(w, fg));
  }

  /** The labels `Label` hands out never exceed the number of pixels, so a
      sweep over the labels 1 .. |fg| meets every component. */
  lemma LabelBounded(w: nat, fg: seq<bool>)
    ensures forall i :: 0 <= i < |fg| ==> Label(w, fg)[i] <= i + 1
  {
    InitialSound(w, fg);
    FixSound(w, fg, Initial(fg));
  }

  /** The label of a foreground pixel is one more than the first pixel of
      its component. */
  lemma LabelFirst(w: nat, fg: seq<bool>, i: nat)
    requires i < |fg| && fg[i]
    ensures Label(w, fg)[i] >= 1
    ensures FirstOfComponent(w, fg, i, Label(w, fg)[i] - 1)
  {
    var lab := Label(w, fg);
    LabelSound(w, fg);
    FixpointAgrees(w, fg, lab);
    FixpointFirst(w, fg, lab, i);
  }

  lemma LabelSound(w: nat, fg: seq<bool>)
    ensures Sound(w, fg, Label(w, fg)) && IsFixpoint(w, fg, Label(w, fg))
  {
    InitialSound(w, fg);
    FixSound(w, fg, Initial(fg));
  }

  /** The label `Label` gives a component is shared by exactly the pixels
      connected to it. */
  lemma LabelSharedByComponent(w: nat, fg: seq<bool>, i: nat)
    requires i < |fg| && fg[i]
    ensures forall j :: 0 <= j < |fg| ==> (Label(w, fg)[j] == Label(w, fg)[i] <==> Connected(w, fg, i, j))
  {
    var lab := Label(w, fg);
    LabelCorrect(w, fg);
    forall j | 0 <= j < |fg|
      ensures lab[j] == lab[i] <==> Connected(w, fg, i, j)
    {
      if Connected(w, fg, i, j) {
        ConnectedEnds(w, fg, i, j);
      }
      if !fg[j] {
        assert lab[j] == 0 && lab[i] != 0;
      }
    }
  }

  /** `Label` leaves exactly the background at 0 and hands out labels no
      larger than the number of pixels. */
  lemma LabelBackground(w: nat, fg: seq<bool>)
    ensures forall i :: 0 <= i < |fg| ==> (Label(w, fg)[i] == 0 <==> !fg[i])
    ensures forall i :: 0 <= i < |fg| ==> Label(w, fg)[i] <= |fg|
  {
    LabelCorrect(w, fg);
    LabelBounded(w, fg);
  }
}

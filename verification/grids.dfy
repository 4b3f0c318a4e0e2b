/** Row-major grids of width `w`: pixel `i` sits at row `i / w`, column
    `i % w`. Adjacency is the cross-shaped (4-neighbour) structure that
    scipy's `ndimage.label` uses by default; connectivity is reachability
    through foreground pixels along such steps. */
module Grids {

  /** `j` is the right-hand neighbour of `i` on the same row. */
  predicate HAdj(w: nat, i: nat, j: nat)
  {
    w > 0 && j == i + 1 && j % w != 0
  }

  /** `j` is the pixel directly below `i`. */
  predicate VAdj(w: nat, i: nat, j: nat)
  {
    w > 0 && j == i + w
  }

  predicate Adjacent(w: nat, i: nat, j: nat)
  {
    HAdj(w, i, j) || HAdj(w, j, i) || VAdj(w, i, j) || VAdj(w, j, i)
  }

  /** A walk through foreground pixels in which every step is 4-adjacent. */
  ghost predicate IsPath(w: nat, fg: seq<bool>, p: seq<nat>)
  {
    && |p| > 0
    && (forall k :: 0 <= k < |p| ==> p[k] < |fg| && fg[p[k]])
    && (forall k :: 0 <= k < |p| - 1 ==> Adjacent(w, p[k], p[k + 1]))
  }

  ghost predicate PathFrom(w: nat, fg: seq<bool>, p: seq<nat>, i: nat, j: nat)
  {
    IsPath(w, fg, p) && p[0] == i && p[|p| - 1] == j
  }

  /** `i` and `j` are foreground pixels of the same 4-connected component. */
  ghost predicate Connected(w: nat, fg: seq<bool>, i: nat, j: nat)
  {
    exists p :: PathFrom(w, fg, p, i, j)
  }

  lemma ConnectedRefl(w: nat, fg: seq<bool>, i: nat)
    requires i < |fg| && fg[i]
    ensures Connected(w, fg, i, i)
  {
    assert PathFrom(w, fg, [i], i, i);
  }

  lemma ConnectedEnds(w: nat, fg: seq<bool>, i: nat, j: nat)
    requires Connected(w, fg, i, j)
    ensures i < |fg| && fg[i] && j < |fg| && fg[j]
  {
    var p :| PathFrom(w, fg, p, i, j);
    assert p[|p| - 1] == j;
  }

  /** One adjacent foreground step in front of a walk. */
  lemma ConnectedStep(w: nat, fg: seq<bool>, i: nat, j: nat, k: nat)
    requires i < |fg| && fg[i] && Adjacent(w, i, j)
    requires Connected(w, fg, j, k)
    ensures Connected(w, fg, i, k)
  {
    var p :| PathFrom(w, fg, p, j, k);
    var q := [i] + p;
    assert forall t :: 1 <= t < |q| ==> q[t] == p[t - 1];
    assert PathFrom(w, fg, q, i, k);
  }

  lemma {:induction false} ConnectedSym(w: nat, fg: seq<bool>, i: nat, j: nat)
    requires Connected(w, fg, i, j)
    ensures Connected(w, fg, j, i)
  {
    var p :| PathFrom(w, fg, p, i, j);
    ReversePath(w, fg, p);
  }

  lemma {:induction false} ReversePath(w: nat, fg: seq<bool>, p: seq<nat>)
    requires IsPath(w, fg, p)
    ensures Connected(w, fg, p[|p| - 1], p[0])
    decreases |p|
  {
    if |p| == 1 {
      ConnectedRefl(w, fg, p[0]);
    } else {
      var tail := p[1..];
      assert IsPath(w, fg, tail) by {
        assert forall k :: 0 <= k < |tail| ==> tail[k] == p[k + 1];
      }
      ReversePath(w, fg, tail);
      // p[|p|-1] reaches p[1]; p[1] is adjacent to p[0]
      ConnectedRefl(w, fg, p[0]);
      assert Adjacent(w, p[1], p[0]) by { assert Adjacent(w, p[0], p[1]); }
      ConnectedStep(w, fg, p[1], p[0], p[0]);
      ConnectedTrans(w, fg, p[|p| - 1], p[1], p[0]);
    }
  }

  lemma {:induction false} ConnectedTrans(w: nat, fg: seq<bool>, i: nat, j: nat, k: nat)
    requires Connected(w, fg, i, j) && Connected(w, fg, j, k)
    ensures Connected(w, fg, i, k)
  {
    var p :| PathFrom(w, fg, p, i, j);
    var q :| PathFrom(w, fg, q, j, k);
    var r := p + q[1..];
    assert forall t :: 0 <= t < |p| ==> r[t] == p[t];
    assert forall t :: |p| <= t < |r| ==> r[t] == q[t - |p| + 1];
    assert forall t :: 0 <= t < |r| - 1 ==> Adjacent(w, r[t], r[t + 1]) by {
      forall t | 0 <= t < |r| - 1 ensures Adjacent(w, r[t], r[t + 1]) {
        if t < |p| - 1 {
        } else if t == |p| - 1 {
          assert r[t] == q[0];
          assert r[t + 1] == q[1];
        } else {
          assert r[t] == q[t - |p| + 1];
        }
      }
    }
    if |q| == 1 {
      assert r == p;
    } else {
      assert r[|r| - 1] == q[|q| - 1];
    }
    assert PathFrom(w, fg, r, i, k);
  }

  /** If a labelling agrees on every adjacent foreground pair, it is constant
      on every connected set. */
  lemma {:induction false} ConstantAlongPath(w: nat, fg: seq<bool>, lab: seq<nat>, p: seq<nat>)
    requires |lab| == |fg|
    requires forall a, b :: 0 <= a < |fg| && 0 <= b < |fg| && fg[a] && fg[b] && Adjacent(w, a, b) ==> lab[a] == lab[b]
    requires IsPath(w, fg, p)
    ensures lab[p[0]] == lab[p[|p| - 1]]
    decreases |p|
  {
    if |p| > 1 {
      var tail := p[1..];
      assert IsPath(w, fg, tail) by {
        assert forall k :: 0 <= k < |tail| ==> tail[k] == p[k + 1];
      }
      ConstantAlongPath(w, fg, lab, tail);
      assert Adjacent(w, p[0], p[1]);
    }
  }

  lemma ConstantOnConnected(w: nat, fg: seq<bool>, lab: seq<nat>, i: nat, j: nat)
    requires |lab| == |fg|
    requires forall a, b :: 0 <= a < |fg| && 0 <= b < |fg| && fg[a] && fg[b] && Adjacent(w, a, b) ==> lab[a] == lab[b]
    requires Connected(w, fg, i, j)
    ensures lab[i] == lab[j]
  {
    var p :| PathFrom(w, fg, p, i, j);
    ConstantAlongPath(w, fg, lab, p);
  }
}

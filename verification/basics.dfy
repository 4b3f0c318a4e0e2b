/** Numeric helpers shared by the image preparation and the weighting
    strategies: sums, first-occurrence arg-min / arg-max (numpy's `argmin`
    and `argmax` on a flattened grid), boolean filters and Python's `int()`
    on a float. */
module Basics {

  datatype Option<T> = None | Some(value: T)

  function Sum(s: seq<real>): real
  {
    if |s| == 0 then 0.0 else s[0] + Sum(s[1..])
  }

  lemma {:induction false} SumAppend(a: seq<real>, b: seq<real>)
    ensures Sum(a + b) == Sum(a) + Sum(b)
  {
    if |a| == 0 {
      assert a + b == b;
    } else {
      assert (a + b)[1..] == a[1..] + b;
      SumAppend(a[1..], b);
    }
  }

  function Min(a: real, b: real): real
  {
    if a <= b then a else b
  }

  /** Index of the first minimum, as numpy's `argmin` on a flat array. */
  function ArgMin(s: seq<real>): (k: nat)
    requires |s| > 0
    ensures k < |s|
    ensures forall j :: 0 <= j < |s| ==> s[k] <= s[j]
    ensures forall j :: 0 <= j < k ==> s[k] < s[j]
  {
    if |s| == 1 then 0
    else
      var k := ArgMin(s[..|s| - 1]);
      if s[|s| - 1] < s[k] then |s| - 1 else k
  }

  /** Index of the first maximum, as numpy's `argmax` on a flat array. */
  function ArgMax(s: seq<real>): (k: nat)
    requires |s| > 0
    ensures k < |s|
    ensures forall j :: 0 <= j < |s| ==> s[j] <= s[k]
    ensures forall j :: 0 <= j < k ==> s[j] < s[k]
  {
    if |s| == 1 then 0
    else
      var k := ArgMax(s[..|s| - 1]);
      if s[k] < s[|s| - 1] then |s| - 1 else k
  }

  /** The largest value of a non-empty sequence (numpy's `nanmax` once the
      NaN entries have been dropped). */
  function MaxOf(s: seq<real>): (m: real)
    requires |s| > 0
    ensures m in s
    ensures forall j :: 0 <= j < |s| ==> s[j] <= m
  {
    s[ArgMax(s)]
  }

  /** The smallest value of a non-empty sequence. */
  function MinOf(s: seq<real>): (m: real)
    requires |s| > 0
    ensures m in s
    ensures forall j :: 0 <= j < |s| ==> m <= s[j]
  {
    s[ArgMin(s)]
  }

  /** The entries strictly greater than `t`, in row-major order: `a[a > t]`. */
  function Greater(s: seq<real>, t: real): (r: seq<real>)
    ensures forall x :: x in r <==> x in s && x > t
    ensures |r| <= |s|
  {
    if |s| == 0 then []
    else if s[0] > t then [s[0]] + Greater(s[1..], t)
    else Greater(s[1..], t)
  }

  /** The entries whose flag is false, in row-major order: `a[~mask]`. */
  function Unflagged(s: seq<real>, flag: seq<bool>): (r: seq<real>)
    requires |flag| == |s|
    ensures forall x :: x in r <==> exists i :: 0 <= i < |s| && !flag[i] && s[i] == x
    ensures |r| == 0 <==> forall i :: 0 <= i < |s| ==> flag[i]
  {
    if |s| == 0 then []
    else
      var rest := Unflagged(s[1..], flag[1..]);
      assert forall i :: 1 <= i < |s| ==> s[1..][i - 1] == s[i] && flag[1..][i - 1] == flag[i];
      if !flag[0] then [s[0]] + rest else rest
  }

  /** Python's `int()` applied to a float: truncation toward zero. */
  function Trunc(x: real): (r: int)
    ensures 0.0 <= x ==> r as real <= x < r as real + 1.0
    ensures x < 0.0 ==> r as real - 1.0 < x <= r as real
  {
    if x >= 0.0 then x.Floor else -((-x).Floor)
  }

  /** Number of positions of `s` holding `x`. */
  function Count(s: seq<nat>, x: nat): nat
  {
    if |s| == 0 then 0 else Count(s[..|s| - 1], x) + (if s[|s| - 1] == x then 1 else 0)
  }

  lemma {:induction false} CountPositive(s: seq<nat>, x: nat)
    ensures Count(s, x) > 0 <==> exists i :: 0 <= i < |s| && s[i] == x
  {
    if |s| > 0 {
      CountPositive(s[..|s| - 1], x);
      assert forall i :: 0 <= i < |s| - 1 ==> s[..|s| - 1][i] == s[i];
    }
  }

  /** `Count` is the size of the set of positions holding `x`. */
  lemma {:induction false} CountIsCard(s: seq<nat>, x: nat)
    ensures Count(s, x) == |set i | 0 <= i < |s| && s[i] == x|
  {
    if |s| > 0 {
      var init := s[..|s| - 1];
      CountIsCard(init, x);
      var before := set i | 0 <= i < |init| && init[i] == x;
      var all := set i | 0 <= i < |s| && s[i] == x;
      assert forall i :: 0 <= i < |init| ==> init[i] == s[i];
      assert |s| - 1 !in before;
      if s[|s| - 1] == x {
        assert all == before + {|s| - 1};
      } else {
        assert all == before;
      }
    }
  }

  /** The foreground of a grid: scipy's `label` treats every non-zero
      pixel as foreground. */
  function Nonzero(s: seq<real>): (fg: seq<bool>)
    ensures |fg| == |s|
    ensures forall i :: 0 <= i < |s| ==> (fg[i] <==> s[i] != 0.0)
  {
    seq(|s|, i requires 0 <= i < |s| => s[i] != 0.0)
  }

  /** Subtracting `c` from every entry lowers the sum by `|s| * c`. */
  lemma {:induction false} SumShift(s: seq<real>, r: seq<real>, c: real)
    requires |r| == |s|
    requires forall i :: 0 <= i < |s| ==> r[i] == s[i] - c
    ensures Sum(r) == Sum(s) - (|s| as real) * c
  {
    if |s| > 0 {
      SumShift(s[1..], r[1..], c);
    }
  }
}

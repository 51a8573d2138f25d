/**
 * The reductions pandas applies to a numeric column, over exact reals with `None`
 * for a missing value: `sum` and `mean` skip missing values, `max` and `min` of a
 * column with no value are missing.
 */
module Aggregate {
  import opened Wrappers

  function Sum(xs: seq<real>): real
    decreases |xs|
  {
    if xs == [] then 0.0 else Sum(xs[..|xs| - 1]) + xs[|xs| - 1]
  }

  lemma {:induction false} SumAppend(a: seq<real>, b: seq<real>)
    ensures Sum(a + b) == Sum(a) + Sum(b)
    decreases |b|
  {
    if b != [] {
      assert (a + b)[..|a + b| - 1] == a + b[..|b| - 1];
      assert (a + b)[|a + b| - 1] == b[|b| - 1];
      SumAppend(a, b[..|b| - 1]);
    } else {
      assert a + b == a;
    }
  }

  /** A sum lies between its length times any lower bound and times any upper bound. */
  lemma {:induction false} SumBounds(xs: seq<real>, lo: real, hi: real)
    requires forall x :: x in xs ==> lo <= x <= hi
    ensures |xs| as real * lo <= Sum(xs) <= |xs| as real * hi
    decreases |xs|
  {
    if xs != [] {
      var init := xs[..|xs| - 1];
      assert forall x :: x in init ==> x in xs;
      assert xs[|xs| - 1] in xs;
      SumBounds(init, lo, hi);
    }
  }

  /** The values that are not missing, in order. */
  function Present(xs: seq<Option<real>>): (r: seq<real>)
    ensures |r| <= |xs|
    ensures r == [] <==> forall i :: 0 <= i < |xs| ==> xs[i].None?
    decreases |xs|
  {
    if xs == [] then []
    else
      var init := xs[..|xs| - 1];
      var last := xs[|xs| - 1];
      assert xs == init + [last];
      Present(init) + (if last.Some? then [last.value] else [])
  }

  /** A value is present exactly when some entry holds it. */
  lemma {:induction false} PresentMembers(xs: seq<Option<real>>)
    ensures forall x :: x in Present(xs) <==> Some(x) in xs
    decreases |xs|
  {
    if xs != [] {
      var init := xs[..|xs| - 1];
      assert xs == init + [xs[|xs| - 1]];
      PresentMembers(init);
    }
  }

  lemma PresentHas(xs: seq<Option<real>>, i: int)
    requires 0 <= i < |xs| && xs[i].Some?
    ensures xs[i].value in Present(xs)
  {
    PresentMembers(xs);
    assert Some(xs[i].value) in xs;
  }

  lemma {:induction false} PresentAppend(a: seq<Option<real>>, b: seq<Option<real>>)
    ensures Present(a + b) == Present(a) + Present(b)
    decreases |b|
  {
    if b != [] {
      assert (a + b)[..|a + b| - 1] == a + b[..|b| - 1];
      assert (a + b)[|a + b| - 1] == b[|b| - 1];
      PresentAppend(a, b[..|b| - 1]);
    } else {
      assert a + b == a;
    }
  }

  /** `Series.sum()`: the total of the values present, 0 when there are none. */
  function SumPresent(xs: seq<Option<real>>): (r: real)
    ensures (forall i :: 0 <= i < |xs| ==> xs[i].None?) ==> r == 0.0
  {
    Sum(Present(xs))
  }

  lemma SumPresentAppend(a: seq<Option<real>>, b: seq<Option<real>>)
    ensures SumPresent(a + b) == SumPresent(a) + SumPresent(b)
  {
    PresentAppend(a, b);
    SumAppend(Present(a), Present(b));
  }

  /** The average of a non-empty list: the number that, times the count, gives the total. */
  function MeanOf(xs: seq<real>): (m: real)
    requires xs != []
    ensures m * (|xs| as real) == Sum(xs)
  {
    DivMul(Sum(xs), |xs| as real);
    Sum(xs) / |xs| as real
  }

  /** `Series.mean()`: the average of the values present; missing when none is. */
  function Mean(xs: seq<Option<real>>): (r: Option<real>)
    ensures r.Some? <==> exists i :: 0 <= i < |xs| && xs[i].Some?
    ensures r.Some? ==> r.value * (|Present(xs)| as real) == Sum(Present(xs))
  {
    var p := Present(xs);
    if p == [] then None else Some(MeanOf(p))
  }

  lemma DivMul(s: real, n: real)
    requires n != 0.0
    ensures (s / n) * n == s
  {
  }

  /** An average lies between the bounds its total lies between, once scaled by the count. */
  lemma MeanBounds(xs: seq<real>, lo: real, hi: real)
    requires xs != [] && |xs| as real * lo <= Sum(xs) <= |xs| as real * hi
    ensures lo <= MeanOf(xs) <= hi
  {
    var n := |xs| as real;
    var q := MeanOf(xs);
    assert (q - lo) * n >= 0.0;
    assert (hi - q) * n >= 0.0;
  }

  function MaxOf(xs: seq<real>): (m: real)
    requires xs != []
    ensures m in xs && forall x :: x in xs ==> x <= m
    decreases |xs|
  {
    if |xs| == 1 then xs[0]
    else
      var init := xs[..|xs| - 1];
      assert xs == init + [xs[|xs| - 1]];
      var m := MaxOf(init);
      if xs[|xs| - 1] > m then xs[|xs| - 1] else m
  }

  function MinOf(xs: seq<real>): (m: real)
    requires xs != []
    ensures m in xs && forall x :: x in xs ==> m <= x
    decreases |xs|
  {
    if |xs| == 1 then xs[0]
    else
      var init := xs[..|xs| - 1];
      assert xs == init + [xs[|xs| - 1]];
      var m := MinOf(init);
      if xs[|xs| - 1] < m then xs[|xs| - 1] else m
  }

  /** `Series.max()`: the largest value present; missing when none is. */
  function Max(xs: seq<Option<real>>): (r: Option<real>)
    ensures r.Some? <==> exists i :: 0 <= i < |xs| && xs[i].Some?
    ensures r.Some? ==> Some(r.value) in xs
    ensures r.Some? ==> forall i :: 0 <= i < |xs| && xs[i].Some? ==> xs[i].value <= r.value
  {
    var p := Present(xs);
    PresentMembers(xs);
    if p == [] then None
    else
      assert forall i :: 0 <= i < |xs| && xs[i].Some? ==> xs[i].value in p by {
        forall i | 0 <= i < |xs| && xs[i].Some? ensures xs[i].value in Present(xs) {
          PresentHas(xs, i);
        }
      }
      Some(MaxOf(p))
  }

  /** `Series.min()`: the smallest value present; missing when none is. */
  function Min(xs: seq<Option<real>>): (r: Option<real>)
    ensures r.Some? <==> exists i :: 0 <= i < |xs| && xs[i].Some?
    ensures r.Some? ==> Some(r.value) in xs
    ensures r.Some? ==> forall i :: 0 <= i < |xs| && xs[i].Some? ==> r.value <= xs[i].value
  {
    var p := Present(xs);
    PresentMembers(xs);
    if p == [] then None
    else
      assert forall i :: 0 <= i < |xs| && xs[i].Some? ==> xs[i].value in p by {
        forall i | 0 <= i < |xs| && xs[i].Some? ensures xs[i].value in Present(xs) {
          PresentHas(xs, i);
        }
      }
      Some(MinOf(p))
  }

  /** With at least one value present, the mean lies between the smallest and the largest. */
  lemma MeanWithinRange(xs: seq<Option<real>>)
    requires exists i :: 0 <= i < |xs| && xs[i].Some?
    ensures Min(xs).value <= Mean(xs).value <= Max(xs).value
  {
    var p := Present(xs);
    var n := |p| as real;
    var lo, hi, m := Min(xs).value, Max(xs).value, Mean(xs).value;
    PresentMembers(xs);
    assert forall x :: x in p ==> lo <= x <= hi by {
      forall x | x in p ensures lo <= x <= hi {
        var i :| 0 <= i < |xs| && xs[i] == Some(x);
      }
    }
    SumBounds(p, lo, hi);
    MeanBounds(p, lo, hi);
  }
}

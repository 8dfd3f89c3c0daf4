/** The numpy vector algebra the portfolio objectives use, over reals. */
module Vectors {

  function Sum(v: seq<real>): real {
    if |v| == 0 then 0.0 else v[0] + Sum(v[1..])
  }

  /** `np.dot` of two vectors. */
  function Dot(a: seq<real>, b: seq<real>): real
    requires |a| == |b|
  {
    if |a| == 0 then 0.0 else a[0] * b[0] + Dot(a[1..], b[1..])
  }

  function Scale(c: real, v: seq<real>): (w: seq<real>)
    ensures |w| == |v|
    ensures forall i :: 0 <= i < |v| ==> w[i] == c * v[i]
  {
    seq(|v|, i requires 0 <= i < |v| => c * v[i])
  }

  /** Every element of `v` is at least `lo`. */
  predicate AllAtLeast(v: seq<real>, lo: real) {
    forall i :: 0 <= i < |v| ==> v[i] >= lo
  }

  /** Every element of `v` is at most `hi`. */
  predicate AllAtMost(v: seq<real>, hi: real) {
    forall i :: 0 <= i < |v| ==> v[i] <= hi
  }

  lemma ScaleTail(c: real, v: seq<real>)
    requires |v| > 0
    ensures Scale(c, v)[1..] == Scale(c, v[1..])
  {
    forall k | 0 <= k < |v| - 1 ensures Scale(c, v)[1..][k] == Scale(c, v[1..])[k] {
      assert v[1..][k] == v[k + 1];
    }
  }

  lemma {:induction false} SumScale(c: real, v: seq<real>)
    ensures Sum(Scale(c, v)) == c * Sum(v)
  {
    if |v| > 0 {
      SumScale(c, v[1..]);
      ScaleTail(c, v);
    }
  }

  lemma {:induction false} DotScaleLeft(c: real, a: seq<real>, b: seq<real>)
    requires |a| == |b|
    ensures Dot(Scale(c, a), b) == c * Dot(a, b)
  {
    if |a| > 0 {
      DotScaleLeft(c, a[1..], b[1..]);
      ScaleTail(c, a);
    }
  }

  lemma {:induction false} DotScaleRight(c: real, a: seq<real>, b: seq<real>)
    requires |a| == |b|
    ensures Dot(a, Scale(c, b)) == c * Dot(a, b)
  {
    if |a| > 0 {
      DotScaleRight(c, a[1..], b[1..]);
      ScaleTail(c, b);
    }
  }

  /** `a` is below `b` in every position. */
  predicate Below(a: seq<real>, b: seq<real>)
    requires |a| == |b|
  {
    forall i :: 0 <= i < |a| ==> a[i] <= b[i]
  }

  /** The vector of length `n` whose every element is `x`. */
  function Const(n: nat, x: real): (v: seq<real>)
    ensures |v| == n && forall i :: 0 <= i < n ==> v[i] == x
  {
    seq(n, i => x)
  }

  /** Weighting a constant vector scales the total weight. */
  lemma {:induction false} DotConst(w: seq<real>, x: real)
    ensures Dot(w, Const(|w|, x)) == x * Sum(w)
  {
    if |w| > 0 {
      DotConst(w[1..], x);
      assert Const(|w|, x)[1..] == Const(|w| - 1, x);
      Distribute(x, w[0], Sum(w[1..]), Sum(w));
    }
  }

  lemma Distribute(x: real, a: real, b: real, t: real)
    requires t == a + b
    ensures x * t == a * x + x * b
  {
  }

  /** With nonnegative weights, the weighted sum is monotone in the values. */
  lemma {:induction false} DotMonotone(w: seq<real>, a: seq<real>, b: seq<real>)
    requires |w| == |a| == |b| && AllAtLeast(w, 0.0) && Below(a, b)
    ensures Dot(w, a) <= Dot(w, b)
  {
    if |w| > 0 {
      assert AllAtLeast(w[1..], 0.0) && Below(a[1..], b[1..]) by {
        forall k | 0 <= k < |w| - 1
          ensures w[1..][k] == w[k + 1] && a[1..][k] == a[k + 1] && b[1..][k] == b[k + 1]
        {
        }
      }
      DotMonotone(w[1..], a[1..], b[1..]);
      MulMonotone(w[0], a[0], b[0]);
    }
  }

  /** A weighted sum with nonnegative weights is at least the smallest value
      times the total weight. */
  lemma DotLowerBound(w: seq<real>, a: seq<real>, lo: real)
    requires |w| == |a| && AllAtLeast(w, 0.0) && AllAtLeast(a, lo)
    ensures lo * Sum(w) <= Dot(w, a)
  {
    DotMonotone(w, Const(|w|, lo), a);
    DotConst(w, lo);
  }

  /** ... and at most the largest value times the total weight. */
  lemma DotUpperBound(w: seq<real>, a: seq<real>, hi: real)
    requires |w| == |a| && AllAtLeast(w, 0.0) && AllAtMost(a, hi)
    ensures Dot(w, a) <= hi * Sum(w)
  {
    DotMonotone(w, a, Const(|w|, hi));
    DotConst(w, hi);
  }

  lemma TailBounds(v: seq<real>, lo: real, hi: real)
    requires |v| > 0
    ensures AllAtLeast(v, lo) ==> AllAtLeast(v[1..], lo)
    ensures AllAtMost(v, hi) ==> AllAtMost(v[1..], hi)
  {
    forall k | 0 <= k < |v| - 1 ensures v[1..][k] == v[k + 1] {
    }
  }

  lemma MulMonotone(w: real, x: real, y: real)
    requires w >= 0.0 && x <= y
    ensures w * x <= w * y
  {
    assert w * y - w * x == w * (y - x);
  }

  /** The standard basis vector `e_i` of length `n`. */
  function OneHot(n: nat, i: nat): (e: seq<real>)
    requires i < n
    ensures |e| == n
    ensures e[i] == 1.0
    ensures forall k :: 0 <= k < n && k != i ==> e[k] == 0.0
  {
    seq(n, k requires 0 <= k < n => if k == i then 1.0 else 0.0)
  }

  /** Dotting with `e_i` picks element `i`. */
  lemma {:induction false} DotOneHot(e: seq<real>, a: seq<real>, i: nat)
    requires |e| == |a| && i < |a|
    requires e[i] == 1.0 && forall k :: 0 <= k < |e| && k != i ==> e[k] == 0.0
    ensures Dot(e, a) == a[i]
    ensures Dot(a, e) == a[i]
  {
    if i == 0 {
      DotZero(e[1..], a[1..]);
    } else {
      DotOneHot(e[1..], a[1..], i - 1);
    }
  }

  lemma {:induction false} DotZero(e: seq<real>, a: seq<real>)
    requires |e| == |a| && forall k :: 0 <= k < |e| ==> e[k] == 0.0
    ensures Dot(e, a) == 0.0 && Dot(a, e) == 0.0
  {
    if |e| > 0 {
      DotZero(e[1..], a[1..]);
    }
  }

  lemma {:induction false} SumOneHot(e: seq<real>, i: nat)
    requires i < |e|
    requires e[i] == 1.0 && forall k :: 0 <= k < |e| && k != i ==> e[k] == 0.0
    ensures Sum(e) == 1.0
  {
    if i == 0 {
      SumZero(e[1..]);
    } else {
      SumOneHot(e[1..], i - 1);
    }
  }

  lemma {:induction false} SumZero(e: seq<real>)
    requires forall k :: 0 <= k < |e| ==> e[k] == 0.0
    ensures Sum(e) == 0.0
  {
    if |e| > 0 {
      SumZero(e[1..]);
    }
  }

  /** An `n` by `n` matrix. */
  predicate IsSquare(m: seq<seq<real>>, n: nat) {
    |m| == n && forall i :: 0 <= i < |m| ==> |m[i]| == n
  }

  /** `np.dot(m, v)`. */
  function MatVec(m: seq<seq<real>>, v: seq<real>): (r: seq<real>)
    requires IsSquare(m, |v|)
    ensures |r| == |v|
    ensures forall i :: 0 <= i < |v| ==> r[i] == Dot(m[i], v)
  {
    seq(|m|, i requires 0 <= i < |m| => Dot(m[i], v))
  }

  /** `v' M v`. */
  function QuadForm(v: seq<real>, m: seq<seq<real>>): real
    requires IsSquare(m, |v|)
  {
    Dot(v, MatVec(m, v))
  }

  /** Scaling the vector scales the quadratic form by the square. */
  lemma QuadFormScale(c: real, v: seq<real>, m: seq<seq<real>>)
    requires IsSquare(m, |v|)
    ensures QuadForm(Scale(c, v), m) == c * (c * QuadForm(v, m))
  {
    MatVecScale(c, v, m);
    DotScaleLeft(c, v, Scale(c, MatVec(m, v)));
    DotScaleRight(c, v, MatVec(m, v));
  }

  /** The matrix-vector product is linear in the vector. */
  lemma MatVecScale(c: real, v: seq<real>, m: seq<seq<real>>)
    requires IsSquare(m, |v|)
    ensures MatVec(m, Scale(c, v)) == Scale(c, MatVec(m, v))
  {
    forall i | 0 <= i < |v| ensures MatVec(m, Scale(c, v))[i] == Scale(c, MatVec(m, v))[i] {
      DotScaleRight(c, m[i], v);
    }
  }

  /** The quadratic form at `e_i` is the diagonal entry. */
  lemma QuadFormOneHot(m: seq<seq<real>>, e: seq<real>, i: nat)
    requires IsSquare(m, |e|) && i < |e|
    requires e[i] == 1.0 && forall k :: 0 <= k < |e| && k != i ==> e[k] == 0.0
    ensures QuadForm(e, m) == m[i][i]
  {
    forall k | 0 <= k < |e| ensures MatVec(m, e)[k] == m[k][i] {
      DotOneHot(e, m[k], i);
    }
    DotOneHot(e, MatVec(m, e), i);
  }

  function Min(v: seq<real>): (lo: real)
    requires |v| > 0
    ensures lo in v && AllAtLeast(v, lo)
  {
    if |v| == 1 then v[0]
    else
      var rest := Min(v[1..]);
      assert forall i :: 1 <= i < |v| ==> v[i] == v[1..][i - 1];
      if v[0] <= rest then v[0] else rest
  }

  function Max(v: seq<real>): (hi: real)
    requires |v| > 0
    ensures hi in v && AllAtMost(v, hi)
  {
    if |v| == 1 then v[0]
    else
      var rest := Max(v[1..]);
      assert forall i :: 1 <= i < |v| ==> v[i] == v[1..][i - 1];
      if v[0] >= rest then v[0] else rest
  }
}

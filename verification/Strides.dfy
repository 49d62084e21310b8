/** Walks over a power-of-two table by a golden-ratio stride, made odd so that n steps visit every
    one of the n slots exactly once. Used by the CPC union and by the frequent-items iterator. */
module Strides {
  import opened Words

  /** (j + stride) & mask, for slots and strides below the table size n. */
  function Step(j: nat, stride: nat, n: nat): (k: nat)
    requires j < n && stride < n
    ensures k < n
  {
    if j + stride >= n then j + stride - n else j + stride
  }

  lemma StepIsMasked(j: nat, stride: nat, n: nat)
    requires j < n && stride < n
    ensures Step(j, stride, n) == (j + stride) % n
  {
  }

  /** The slot reached after t steps. */
  function Orbit(start: nat, stride: nat, n: nat, t: nat): (j: nat)
    requires start < n && stride < n
    ensures j < n
  {
    if t == 0 then start else Step(Orbit(start, stride, n, t - 1), stride, n)
  }

  lemma {:induction false} OrbitLaps(start: nat, stride: nat, n: nat, t: nat) returns (laps: nat)
    requires start < n && stride < n
    ensures start + t * stride == Orbit(start, stride, n, t) + laps * n
  {
    if t == 0 {
      laps := 0;
    } else {
      laps := OrbitLaps(start, stride, n, t - 1);
      OneMore(t - 1, stride);
      OneMore(laps, n);
      if Orbit(start, stride, n, t - 1) + stride >= n {
        laps := laps + 1;
      }
    }
  }

  lemma OneMore(t: int, s: int)
    ensures (t + 1) * s == t * s + s
  {
  }

  /** An odd factor can be cancelled modulo a power of two. */
  lemma {:induction false} OddCancels(a: nat, s: nat, q: nat, m: nat) returns (r: nat)
    requires s % 2 == 1 && a * s == q * Pow2(m)
    ensures a == r * Pow2(m)
    decreases m
  {
    if m == 0 {
      r := a;
    } else {
      Doubling(q, Pow2(m - 1));
      Halve(a, s);
      r := OddCancels(a / 2, s, q, m - 1);
      Doubling(r, Pow2(m - 1));
    }
  }

  lemma Doubling(q: int, p: int)
    ensures q * (2 * p) == 2 * (q * p)
  {
  }

  lemma Halve(a: nat, s: nat)
    ensures a * s == 2 * ((a / 2) * s) + (if a % 2 == 1 then s else 0)
  {
    var x := a / 2;
    assert (2 * x) * s == 2 * (x * s);
    OneMore(2 * x, s);
  }

  lemma OrbitInjective(start: nat, stride: nat, m: nat, t: nat, u: nat)
    requires stride % 2 == 1 && start < Pow2(m) && stride < Pow2(m) && t < u < Pow2(m)
    ensures Orbit(start, stride, Pow2(m), t) != Orbit(start, stride, Pow2(m), u)
  {
    var n := Pow2(m);
    var lt := OrbitLaps(start, stride, n, t);
    var lu := OrbitLaps(start, stride, n, u);
    if Orbit(start, stride, n, t) == Orbit(start, stride, n, u) {
      DifferentLaps(t, u, stride, lt, lu, n);
      var r := OddCancels(u - t, stride, lu - lt, m);
      TooFar(u - t, r, n);
      assert false;
    }
  }

  lemma DifferentLaps(t: nat, u: nat, s: nat, lt: nat, lu: nat, n: nat)
    requires t < u && n > 0 && u * s - t * s == lu * n - lt * n
    ensures lt <= lu && (u - t) * s == (lu - lt) * n
  {
    assert (u - t) * s == u * s - t * s;
    assert (lu - lt) * n == lu * n - lt * n;
    if lu < lt {
      MulMono(n, lu - lt, -1);
      assert false;
    }
  }

  lemma TooFar(a: nat, r: nat, n: nat)
    requires 0 < a < n
    ensures a != r * n
  {
    if r > 0 {
      MulMono(n, 1, r);
    }
  }

  ghost function Visited(start: nat, stride: nat, n: nat, steps: nat): set<nat>
    requires start < n && stride < n
  {
    set t: nat | t < steps :: Orbit(start, stride, n, t)
  }

  lemma VisitedNext(start: nat, stride: nat, n: nat, steps: nat)
    requires start < n && stride < n
    ensures Visited(start, stride, n, steps + 1) == Visited(start, stride, n, steps) + {Orbit(start, stride, n, steps)}
  {
  }

  lemma {:induction false} VisitedSize(start: nat, stride: nat, m: nat, steps: nat)
    requires stride % 2 == 1 && start < Pow2(m) && stride < Pow2(m) && steps <= Pow2(m)
    ensures |Visited(start, stride, Pow2(m), steps)| == steps
  {
    if steps == 0 {
      assert Visited(start, stride, Pow2(m), 0) == {};
    } else {
      VisitedSize(start, stride, m, steps - 1);
      VisitedNext(start, stride, Pow2(m), steps - 1);
      forall t: nat | t < steps - 1
        ensures Orbit(start, stride, Pow2(m), t) != Orbit(start, stride, Pow2(m), steps - 1)
      {
        OrbitInjective(start, stride, m, t, steps - 1);
      }
    }
  }

  ghost function Below(n: nat): (s: set<nat>)
    ensures forall j: nat :: j in s <==> j < n
    ensures |s| == n
  {
    if n == 0 then {} else Below(n - 1) + {n - 1}
  }

  lemma SubsetOfEqualSize(a: set<nat>, b: set<nat>)
    requires a <= b && |a| == |b|
    ensures a == b
  {
    assert b == a + (b - a);
  }

  /** n steps visit every slot: each exactly once, by OrbitInjective. */
  lemma AllVisited(start: nat, stride: nat, m: nat)
    requires stride % 2 == 1 && start < Pow2(m) && stride < Pow2(m)
    ensures Visited(start, stride, Pow2(m), Pow2(m)) == Below(Pow2(m))
  {
    VisitedSize(start, stride, m, Pow2(m));
    assert Visited(start, stride, Pow2(m), Pow2(m)) <= Below(Pow2(m));
    SubsetOfEqualSize(Visited(start, stride, Pow2(m), Pow2(m)), Below(Pow2(m)));
  }
}

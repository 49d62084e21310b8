/** Cyclic probe paths, shared by the two linear-probing tables. */
module Probing {

  /** The slot probed after p, written (p + 1) & mask. */
  function Next(p: nat, n: nat): nat
    requires p < n
  {
    if p + 1 == n then 0 else p + 1
  }

  lemma NextIsMasked(p: nat, n: nat)
    requires p < n
    ensures Next(p, n) == (p + 1) % n
  {
  }

  /** Does the probe path from h visit j before it reaches i? */
  predicate InArc(h: nat, j: nat, i: nat) {
    if h <= i then h <= j < i else h <= j || j < i
  }

  /** How far j lies behind slot e: an empty slot e cuts the cycle into a line. */
  function Rel(e: nat, n: nat, j: nat): int {
    if j > e then j - e - 1 else j + n - e - 1
  }

  /** A path that avoids e is an interval of that line. */
  lemma ArcIsInterval(e: nat, n: nat, h: nat, i: nat)
    requires e < n && h < n && i < n && !InArc(h, e, i)
    ensures Rel(e, n, h) <= Rel(e, n, i)
    ensures forall j: nat | j < n :: InArc(h, j, i) <==> Rel(e, n, h) <= Rel(e, n, j) < Rel(e, n, i)
  {
  }

  lemma IntervalIsArc(e: nat, n: nat, h: nat, i: nat)
    requires e < n && h < n && i < n && Rel(e, n, h) <= Rel(e, n, i)
    ensures forall j: nat | j < n :: InArc(h, j, i) <==> Rel(e, n, h) <= Rel(e, n, j) < Rel(e, n, i)
  {
  }
}

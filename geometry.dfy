/**
 * Plane geometry used by the road graph: positions, the Euclidean length
 * function, and coordinates extended with the two infinities that seed the
 * bounding-box fold.
 */
module Geometry {

  /** A point on the map; coordinates are finite numbers. */
  datatype Position = Position(x: real, y: real)

  /**
   * The length of a vector (dx, dy), as the platform's `Math.hypot` computes
   * it. Real square roots have no counterpart here, so the length function is
   * supplied by the caller; the search relies only on a length never being
   * negative. That reversing a vector keeps its length (`Even`) is assumed
   * only by the lemmas about direction.
   */
  type Hypot = h: (real, real) -> real
    | forall dx, dy :: 0.0 <= h(dx, dy)
    witness Degenerate

  /** Reversing a vector does not change its length, as for `Math.hypot`. */
  ghost predicate Even(h: Hypot)
  {
    forall dx, dy :: h(-dx, -dy) == h(dx, dy)
  }

  /** The all-zero length function: it is a length function, so `Hypot` is inhabited. */
  function Degenerate(dx: real, dy: real): real { 0.0 }

  /** Straight-line distance from `p` to `q`. */
  function Distance(p: Position, q: Position, h: Hypot): (d: real)
    ensures 0.0 <= d
  {
    h(p.x - q.x, p.y - q.y)
  }

  /** Distance does not depend on the direction it is measured in. */
  lemma DistanceSymmetric(p: Position, q: Position, h: Hypot)
    requires Even(h)
    ensures Distance(p, q, h) == Distance(q, p, h)
  {
  }

  /** A coordinate, or one of the infinities the bounding-box fold starts from. */
  datatype Extended = NegInf | Finite(value: real) | PosInf

  /**
   * `Math.min(a, x)` for a finite `x`: -infinity absorbs; otherwise the
   * result is finite, below both arguments, and one of them.
   */
  function Lower(a: Extended, x: real): (m: Extended)
    ensures a == NegInf ==> m == NegInf
    ensures a != NegInf ==> m.Finite? && m.value <= x && (a.Finite? ==> m.value <= a.value)
    ensures a != NegInf ==> m == a || m.value == x
  {
    match a
    case NegInf => NegInf
    case Finite(m) => Finite(if m < x then m else x)
    case PosInf => Finite(x)
  }

  /**
   * `Math.max(a, x)` for a finite `x`: +infinity absorbs; otherwise the
   * result is finite, above both arguments, and one of them.
   */
  function Upper(a: Extended, x: real): (m: Extended)
    ensures a == PosInf ==> m == PosInf
    ensures a != PosInf ==> m.Finite? && x <= m.value && (a.Finite? ==> a.value <= m.value)
    ensures a != PosInf ==> m == a || m.value == x
  {
    match a
    case NegInf => Finite(x)
    case Finite(m) => Finite(if m > x then m else x)
    case PosInf => PosInf
  }

  /** The least integer not below `r` (`Math.ceil`). */
  function Ceil(r: real): (c: int)
    ensures r <= c as real < r + 1.0
  {
    -((-r).Floor)
  }

  /** `Math.ceil(a + 1)`: each infinity stays the same infinity. */
  function CeilPlusOne(a: Extended): (r: Extended)
    ensures a.Finite? <==> r.Finite?
    ensures !a.Finite? ==> r == a
    ensures a.Finite? ==> a.value + 1.0 <= r.value < a.value + 2.0 && r.value == r.value.Floor as real
  {
    match a
    case NegInf => NegInf
    case Finite(v) => Finite(Ceil(v + 1.0) as real)
    case PosInf => PosInf
  }
}

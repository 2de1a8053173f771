/** Distances as the kernel compares them: a finite value, or INF, which
    exceeds every finite value. */
module Distance {

  datatype Dist = Fin(d: int) | Inf

  /** `x < b` with INF above every finite value. */
  predicate Below(x: int, b: Dist)
  {
    b.Inf? || x < b.d
  }

  /** `x <= b` with INF above every finite value. */
  predicate AtMost(x: int, b: Dist)
  {
    b.Inf? || x <= b.d
  }

  /** `a <= b` on distances. */
  predicate Le(a: Dist, b: Dist)
  {
    b.Inf? || (a.Fin? && a.d <= b.d)
  }
}

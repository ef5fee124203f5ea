/** Instants in nanoseconds, and the whole-second stamps that RFC 3339 formatting stores. */
module Clock {
  const SECOND := 1_000_000_000

  /** Formatting drops the sub-second part: floor division, also before the epoch. */
  function Stamp(t: int): int {
    t / SECOND
  }

  /** The stamp is the last whole second not after the instant. */
  lemma StampMeaning(t: int)
    ensures Stamp(t) * 1_000_000_000 <= t < (Stamp(t) + 1) * 1_000_000_000
  {
  }

  lemma StampMonotone(t: int, u: int)
    requires t <= u
    ensures Stamp(t) <= Stamp(u)
  {
  }

  /** Adding whole seconds commutes with truncation. */
  lemma StampAddSeconds(t: int, seconds: int)
    ensures Stamp(t + seconds * SECOND) == Stamp(t) + seconds
  {
  }

  lemma StampLess(t: int, u: int)
    requires Stamp(t) < Stamp(u)
    ensures t < u
  {
  }
}

/** Configuration shared by the allocator wrapper and the backtrace support:
    the capture mode chosen at construction and the fixed thread capacity. */
module TrackConfig {

  /** Number of thread slots; the accounting matrix is MaxThreads x MaxThreads. */
  const MaxThreads: nat := 1024

  /** Backtrace capture mode, selected once when the wrapper is built. */
  datatype BacktraceMode =
    | None  // no backtrace tracking
    | Short // captured; library-internal frames hidden when rendered
    | Full  // captured and rendered unfiltered
}

/** Unsigned arithmetic the source relies on. */
module UnsignedMath {

  /** `a.saturating_sub(b)` on unsigned integers: the difference when it is
      not negative, otherwise 0. */
  function SaturatingSub(a: nat, b: nat): (r: nat)
    ensures r <= a
    ensures a <= r + b
    ensures r > 0 ==> r + b == a
  {
    if b <= a then a - b else 0
  }
}

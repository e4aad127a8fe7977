/**
 * The engine's random number sources (FMath::RandRange, FMath::RandBool and a
 * seeded FRandomStream) seen as an oracle: `stream(k)` is the k-th raw draw,
 * and every call consumes the next draw. Nothing is required of the raw
 * draws, so every property proved of a generator holds for every sequence of
 * choices.
 */
module RandomStream {

  /** The k-th raw draw of a random stream. */
  type Stream = nat -> int

  /**
   * RandRange(lo, hi): the k-th draw brought into the inclusive range
   * [lo, hi]; for an empty range (hi < lo) the engine returns `lo`.
   */
  function RandRange(stream: Stream, k: nat, lo: int, hi: int): (r: int)
    ensures lo <= hi ==> lo <= r <= hi
    ensures hi < lo ==> r == lo
  {
    if hi < lo then lo else lo + stream(k) % (hi - lo + 1)
  }

  /** RandBool(): the k-th draw read as a fair coin. */
  function RandBool(stream: Stream, k: nat): bool {
    stream(k) % 2 == 0
  }

  /** The oracle is unconstrained: each value of the range is the draw of some stream. */
  lemma RandRangeReachesEvery(k: nat, lo: int, hi: int, v: int)
    requires lo <= v <= hi
    ensures RandRange(_ => v - lo, k, lo, hi) == v
  {
  }
}

/**
 * The two `VecDeque`s of the download record are bounded FIFO queues:
 * a push appends at the back and, once the queue is over capacity,
 * the oldest entry is dropped from the front.
 */
module BoundedFifo {
  import opened Wrappers

  /**
   * Reference meaning of "bounded to n": evict from the front, one element
   * at a time, until at most n elements remain.
   */
  function KeepLast<T>(s: seq<T>, n: nat): (r: seq<T>)
    decreases |s|
    ensures |r| == Min(|s|, n)
    ensures r == s[|s| - |r|..]
  {
    if |s| <= n then s else KeepLast(s[1..], n)
  }

  /** `push_back(x)` followed by one `pop_front()` when the length exceeds `cap`. */
  function PushEvict<T>(q: seq<T>, x: T, cap: nat): (r: seq<T>)
    requires 0 < cap
    ensures |q| <= cap ==> |r| <= cap
    ensures 0 < |r| && r[|r| - 1] == x
    ensures |q| < cap ==> r == q + [x]
    ensures |q| == cap ==> r == q[1..] + [x]
  {
    var pushed := q + [x];
    if |pushed| > cap then pushed[1..] else pushed
  }

  /** A push never lets the queue exceed its capacity: it keeps exactly the newest `cap` entries. */
  lemma PushEvictKeepsNewest<T>(q: seq<T>, x: T, cap: nat)
    requires 0 < cap && |q| <= cap
    ensures PushEvict(q, x, cap) == KeepLast(q + [x], cap)
  {
  }
}

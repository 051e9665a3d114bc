/**
 * The same-as-previous cache of the second pass, as a function of the
 * row-major pixel sequence: which pixels cause a `QuantizePixel` call.
 */
module PixelCache {
  import opened Pixels

  /**
   * The pixels `QuantizePixel` is called with once the first `n` pixels of
   * `ps` are handled: the first pixel (the seed call before the loop), then
   * every pixel whose raw value differs from the pixel just before it.
   */
  function CacheMisses(ps: seq<Color32>, n: int): (r: seq<Color32>)
    requires 1 <= n <= |ps|
    ensures 1 <= |r| <= n
    ensures r[0] == ps[0]
    ensures r[|r| - 1] == ps[n - 1]
    decreases n
  {
    if n == 1 then [ps[0]]
    else CacheMisses(ps, n - 1) + if ps[n - 1] != ps[n - 2] then [ps[n - 1]] else []
  }

  /** Position `k` holds a pixel whose raw value differs from the one before it. */
  predicate DiffersFromPrevious(ps: seq<Color32>, k: int)
    requires 1 <= k < |ps|
  {
    ps[k] != ps[k - 1]
  }

  /** The positions among the first `n` after the first whose pixel differs from its predecessor. */
  function Changes(ps: seq<Color32>, n: int): set<int>
    requires n <= |ps|
  {
    set k | 1 <= k < n && DiffersFromPrevious(ps, k)
  }

  /** One call for the seed, plus one per change of raw value between neighbours. */
  lemma {:induction false} CacheMissCount(ps: seq<Color32>, n: int)
    requires 1 <= n <= |ps|
    ensures |CacheMisses(ps, n)| == 1 + |Changes(ps, n)|
    decreases n
  {
    if n == 1 {
      assert Changes(ps, n) == {};
    } else {
      CacheMissCount(ps, n - 1);
      if ps[n - 1] != ps[n - 2] {
        assert Changes(ps, n) == Changes(ps, n - 1) + {n - 1};
      } else {
        assert Changes(ps, n) == Changes(ps, n - 1);
      }
    }
  }

  /** A uniform image makes exactly one call, the seed. */
  lemma {:induction false} UniformImageOneCall(ps: seq<Color32>, n: int)
    requires 1 <= n <= |ps|
    requires forall i :: 0 <= i < n ==> ps[i] == ps[0]
    ensures CacheMisses(ps, n) == [ps[0]]
    decreases n
  {
    if n > 1 {
      UniformImageOneCall(ps, n - 1);
    }
  }

  /**
   * Skipping a call never skips a colour: every pixel handled so far is one
   * that `QuantizePixel` has been called with, and every call was for one of
   * them.
   */
  lemma {:induction false} CacheCovers(ps: seq<Color32>, n: int)
    requires 1 <= n <= |ps|
    ensures forall i :: 0 <= i < n ==> ps[i] in CacheMisses(ps, n)
    ensures forall p :: p in CacheMisses(ps, n) ==> p in ps[..n]
    decreases n
  {
    if n > 1 {
      CacheCovers(ps, n - 1);
      assert ps[..n - 1] + [ps[n - 1]] == ps[..n];
    }
  }
}

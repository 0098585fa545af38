/** The control skeleton of the three-dimensional linear program an RVO2 agent
    solves for its new velocity. The planes are scanned in order; when the
    current result violates a plane, the two-dimensional program on that plane
    is asked for a new result, and when it fails the result held before that
    plane is restored and the plane's index is returned.

    The geometry is abstract: `violated` stands for the test that the result
    lies on the wrong side of a plane, and `solve2` for the two-dimensional
    program, which reports success and leaves a value in `result` whether or
    not it succeeds. */
module LinearProgram {

  /** What one call of the two-dimensional program does: whether it succeeded,
      and the value it left in `result`. */
  datatype Attempt<V> = Attempt(ok: bool, written: V)

  /** The state of the scan after a prefix of the planes: still running with the
      current result, or stopped at the plane `index` where the two-dimensional
      program failed, with the result restored to its value before that plane. */
  datatype Scan<V> = Running(result: V) | Failed(index: nat, result: V)

  /** The scan after the first `k` planes, starting from `seed`. */
  function ScanPlanes<P, V>(planes: seq<P>, k: nat, seed: V, violated: (P, V) -> bool,
                            solve2: (nat, V) -> Attempt<V>): Scan<V>
    requires k <= |planes|
    decreases k
  {
    if k == 0 then Running(seed)
    else
      match ScanPlanes(planes, k - 1, seed, violated, solve2)
      case Failed(i, v) => Failed(i, v)
      case Running(v) =>
        if !violated(planes[k - 1], v) then Running(v)
        else if solve2(k - 1, v).ok then Running(solve2(k - 1, v).written)
        else Failed(k - 1, v)
  }

  /** Scans the planes from the result `seed` (the optimisation step that
      precedes the loop); returns the index of the plane it fails on, or
      `|planes|` when it gets through all of them, and the final result. */
  method LinearProgram3<P, V>(planes: seq<P>, seed: V, violated: (P, V) -> bool,
                              solve2: (nat, V) -> Attempt<V>) returns (fail: nat, result: V)
    ensures fail <= |planes|
    ensures fail == |planes| <==> ScanPlanes(planes, |planes|, seed, violated, solve2).Running?
    ensures ScanPlanes(planes, |planes|, seed, violated, solve2) ==
      if fail == |planes| then Running(result) else Failed(fail, result)
  {
    result := seed;
    var i := 0;
    while i < |planes|
      invariant i <= |planes|
      invariant ScanPlanes(planes, i, seed, violated, solve2) == Running(result)
    {
      if violated(planes[i], result) {
        var tempResult := result;
        var attempt := solve2(i, result);
        result := attempt.written;
        if !attempt.ok {
          result := tempResult;
          fail := i;
          FailedStays(planes, i + 1, |planes|, seed, violated, solve2);
          return;
        }
      }
      i := i + 1;
    }
    fail := |planes|;
  }

  /** Once the scan has failed it stays failed, at the same plane and with the
      same restored result. */
  lemma {:induction false} FailedStays<P, V>(planes: seq<P>, k: nat, m: nat, seed: V, violated: (P, V) -> bool,
                                             solve2: (nat, V) -> Attempt<V>)
    requires k <= m <= |planes|
    ensures ScanPlanes(planes, k, seed, violated, solve2).Failed? ==>
      ScanPlanes(planes, m, seed, violated, solve2) == ScanPlanes(planes, k, seed, violated, solve2)
    decreases m
  {
    if k < m {
      FailedStays(planes, k, m - 1, seed, violated, solve2);
    }
  }

  /** Restore on failure: a scan that failed at plane `i` holds the result it
      had just before plane `i`, that result violates plane `i`, and the
      two-dimensional program failed on it. */
  lemma {:induction false} FailedAt<P, V>(planes: seq<P>, k: nat, seed: V, violated: (P, V) -> bool,
                                          solve2: (nat, V) -> Attempt<V>)
    requires k <= |planes|
    ensures var s := ScanPlanes(planes, k, seed, violated, solve2);
      s.Failed? ==>
        s.index < k &&
        ScanPlanes(planes, s.index, seed, violated, solve2) == Running(s.result) &&
        violated(planes[s.index], s.result) && !solve2(s.index, s.result).ok
    decreases k
  {
    if k > 0 {
      FailedAt(planes, k - 1, seed, violated, solve2);
    }
  }

  /** The one place where a scan of the first `k` planes can fail: at a plane
      the current result violates and where the two-dimensional program fails. */
  predicate StopsAt<P, V>(planes: seq<P>, j: nat, seed: V, violated: (P, V) -> bool,
                          solve2: (nat, V) -> Attempt<V>)
    requires j < |planes|
  {
    var s := ScanPlanes(planes, j, seed, violated, solve2);
    s.Running? && violated(planes[j], s.result) && !solve2(j, s.result).ok
  }

  /** The scan of the first `k` planes gets through exactly when no plane among
      them makes the two-dimensional program fail. */
  lemma {:induction false} RunningIff<P, V>(planes: seq<P>, k: nat, seed: V, violated: (P, V) -> bool,
                                            solve2: (nat, V) -> Attempt<V>)
    requires k <= |planes|
    ensures ScanPlanes(planes, k, seed, violated, solve2).Running? <==>
      forall j :: 0 <= j < k ==> !StopsAt(planes, j, seed, violated, solve2)
    decreases k
  {
    if k > 0 {
      RunningIff(planes, k - 1, seed, violated, solve2);
      var prev := ScanPlanes(planes, k - 1, seed, violated, solve2);
      if prev.Failed? {
        FailedAt(planes, k - 1, seed, violated, solve2);
        assert StopsAt(planes, prev.index, seed, violated, solve2);
        assert ScanPlanes(planes, k, seed, violated, solve2).Failed?;
      } else {
        assert ScanPlanes(planes, k, seed, violated, solve2).Running? <==>
          !StopsAt(planes, k - 1, seed, violated, solve2);
      }
    }
  }

  /** What the two-dimensional program promises when it succeeds on plane `i`:
      its result satisfies plane `i` and every plane before it. */
  ghost predicate Sound2<P, V(!new)>(planes: seq<P>, violated: (P, V) -> bool, solve2: (nat, V) -> Attempt<V>) {
    forall i: nat, v: V, j: nat ::
      j <= i < |planes| && solve2(i, v).ok ==> !violated(planes[j], solve2(i, v).written)
  }

  /** With a sound two-dimensional program, the result of a scan that is still
      running satisfies every plane scanned so far; after a failure at plane `i`
      the restored result satisfies the planes before `i`. */
  lemma {:induction false} ScanFeasible<P, V(!new)>(planes: seq<P>, k: nat, seed: V, violated: (P, V) -> bool,
                                              solve2: (nat, V) -> Attempt<V>)
    requires k <= |planes|
    requires Sound2(planes, violated, solve2)
    ensures var s := ScanPlanes(planes, k, seed, violated, solve2);
      (s.Running? ==> forall j :: 0 <= j < k ==> !violated(planes[j], s.result)) &&
      (s.Failed? ==> s.index < k && forall j :: 0 <= j < s.index ==> !violated(planes[j], s.result))
    decreases k
  {
    var s := ScanPlanes(planes, k, seed, violated, solve2);
    if s.Failed? {
      FailedAt(planes, k, seed, violated, solve2);
      ScanFeasible(planes, s.index, seed, violated, solve2);
    } else if k > 0 {
      ScanFeasible(planes, k - 1, seed, violated, solve2);
      var prev := ScanPlanes(planes, k - 1, seed, violated, solve2);
      if prev.Running? && violated(planes[k - 1], prev.result) && solve2(k - 1, prev.result).ok {
        var w := solve2(k - 1, prev.result).written;
        forall j | 0 <= j < k ensures !violated(planes[j], w) {
          assert j <= k - 1 < |planes| && solve2(k - 1, prev.result).ok;
        }
      }
    }
  }
}

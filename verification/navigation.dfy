/**
 Index arithmetic of the transport controls over a playlist of `n` tracks:
 stepping forward and backward with wrap-around, and the shuffle pick, which
 draws random indices until one differs from the current track.
 */
module Navigation {
  import opened Wrappers

  /** `(i + 1) % n`: the following track, wrapping from the last to the first. */
  function NextIndex(n: nat, i: nat): (r: nat)
    requires i < n
    ensures r < n
    ensures i + 1 < n ==> r == i + 1
    ensures i + 1 == n ==> r == 0
  {
    (i + 1) % n
  }

  /** `(i - 1 + n) % n`: the preceding track, wrapping from the first to the last. */
  function PrevIndex(n: nat, i: nat): (r: nat)
    requires i < n
    ensures r < n
    ensures i > 0 ==> r == i - 1
    ensures i == 0 ==> r == n - 1
  {
    (i - 1 + n) % n
  }

  /** Stepping back undoes stepping forward. */
  lemma PrevUndoesNext(n: nat, i: nat)
    requires i < n
    ensures PrevIndex(n, NextIndex(n, i)) == i
  {
  }

  /** Stepping forward undoes stepping back. */
  lemma NextUndoesPrev(n: nat, i: nat)
    requires i < n
    ensures NextIndex(n, PrevIndex(n, i)) == i
  {
  }

  /** The index reached from `i` by `k` forward steps. */
  function Advance(n: nat, i: nat, k: nat): (r: nat)
    requires i < n
    ensures r < n
    decreases k
  {
    if k == 0 then i else NextIndex(n, Advance(n, i, k - 1))
  }

  /** Within one lap, `k` forward steps from `i` land on `i + k`, less `n` once the end is passed. */
  lemma {:induction false} AdvanceWraps(n: nat, i: nat, k: nat)
    requires i < n && k <= n
    ensures Advance(n, i, k) == if i + k < n then i + k else i + k - n
    decreases k
  {
    if k > 0 {
      AdvanceWraps(n, i, k - 1);
    }
  }

  /** `n` presses of "next" return to the start and fewer presses never do. */
  lemma AdvanceCycles(n: nat, i: nat)
    requires i < n
    ensures Advance(n, i, n) == i
    ensures forall k :: 0 < k < n ==> Advance(n, i, k) != i
  {
    AdvanceWraps(n, i, n);
    forall k | 0 < k < n
      ensures Advance(n, i, k) != i
    {
      AdvanceWraps(n, i, k);
    }
  }

  /** The number of presses of "next" that lead from `i` to `j`. */
  function StepsBetween(n: nat, i: nat, j: nat): nat
    requires i < n && j < n
  {
    if j >= i then j - i else j + n - i
  }

  /** Every track is reached from `i` within fewer than `n` presses of "next". */
  lemma AdvanceReaches(n: nat, i: nat, j: nat)
    requires i < n && j < n
    ensures StepsBetween(n, i, j) < n
    ensures Advance(n, i, StepsBetween(n, i, j)) == j
  {
    AdvanceWraps(n, i, StepsBetween(n, i, j));
  }

  /**
   The outcomes the shuffle pick can have: 0 when the playlist has at most one
   track, otherwise any index in range other than the current one.
   */
  predicate IsShufflePick(n: nat, current: nat, k: nat) {
    if n <= 1 then k == 0 else k < n && k != current
  }

  /** Every state admits a shuffle pick, so the rejection loop can stop. */
  lemma ShufflePickExists(n: nat, current: nat)
    ensures exists k :: IsShufflePick(n, current, k)
  {
    if n <= 1 {
      assert IsShufflePick(n, current, 0);
    } else if current == 0 {
      assert IsShufflePick(n, current, 1);
    } else {
      assert IsShufflePick(n, current, 0);
    }
  }

  /**
   The do-while loop of the shuffle pick run over the given random draws: the
   first draw that differs from `current`, or None when every draw so far
   repeated the current track and the loop would keep drawing.
   */
  function FirstDifferent(draws: seq<nat>, current: nat): (r: Option<nat>)
    ensures r.Some? ==> r.value in draws && r.value != current
    ensures r.Some? ==> exists j :: 0 <= j < |draws| && draws[j] == r.value
                         && forall m :: 0 <= m < j ==> draws[m] == current
    ensures r.None? <==> forall m :: 0 <= m < |draws| ==> draws[m] == current
  {
    if |draws| == 0 then None
    else if draws[0] != current then Some(draws[0])
    else
      var rest := FirstDifferent(draws[1..], current);
      if rest.Some? then
        assert exists j :: 0 <= j < |draws[1..]| && draws[1..][j] == rest.value
                           && forall m :: 0 <= m < j ==> draws[1..][m] == current;
        var j :| 0 <= j < |draws[1..]| && draws[1..][j] == rest.value
                  && forall m :: 0 <= m < j ==> draws[1..][m] == current;
        assert draws[j + 1] == rest.value && forall m :: 0 <= m < j + 1 ==> draws[m] == current;
        rest
      else
        rest
  }

  /**
   `getRandomTrack`: 0 for a playlist of at most one track; otherwise the
   result of the rejection loop over the draws, each draw being
   `Math.floor(Math.random() * n)`.
   */
  function RandomTrack(n: nat, current: nat, draws: seq<nat>): (r: Option<nat>)
    requires forall m :: 0 <= m < |draws| ==> draws[m] < n
    ensures r.Some? ==> IsShufflePick(n, current, r.value)
    ensures n <= 1 ==> r == Some(0)
  {
    if n <= 1 then Some(0) else FirstDifferent(draws, current)
  }

  /** Every admissible pick is an outcome of the loop for some sequence of draws. */
  lemma ShufflePickReachable(n: nat, current: nat, k: nat)
    requires n > 0 && IsShufflePick(n, current, k)
    ensures k < n
    ensures exists draws: seq<nat> ::
              (forall m :: 0 <= m < |draws| ==> draws[m] < n) && RandomTrack(n, current, draws) == Some(k)
  {
    if n == 1 {
      assert RandomTrack(n, current, []) == Some(k);
    } else if current < n {
      var draws := [current, k];
      assert draws[1..] == [k];
      assert FirstDifferent([k], current) == Some(k);
      assert RandomTrack(n, current, draws) == Some(k);
    } else {
      assert RandomTrack(n, current, [k]) == Some(k);
    }
  }
}

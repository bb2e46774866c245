/**
  The selection loop the reconciler runs over candidate blocks:
  `if score > best_score and eligible: best = candidate; best_score = score`,
  starting from `best_score = 0`.  Its result is the first candidate with the
  greatest score among the eligible ones.
 */
module Select {
  import opened Wrappers

  /** A candidate's score and whether it passes the threshold. */
  datatype Cand = Cand(score: real, eligible: bool)

  /** `k` is the first eligible candidate whose score no eligible candidate beats. */
  predicate FirstBest(cands: seq<Cand>, k: nat) {
    && k < |cands|
    && cands[k].eligible
    && (forall j | 0 <= j < |cands| && cands[j].eligible :: cands[j].score <= cands[k].score)
    && (forall j | 0 <= j < k && cands[j].eligible :: cands[j].score < cands[k].score)
  }

  /** The loop from candidate `i` on, with the best so far and its score. */
  function ScanFrom(cands: seq<Cand>, i: nat, best: Option<nat>, bestScore: real): Option<nat>
    requires i <= |cands|
    decreases |cands| - i
  {
    if i == |cands| then best
    else if cands[i].score > bestScore && cands[i].eligible then ScanFrom(cands, i + 1, Some(i), cands[i].score)
    else ScanFrom(cands, i + 1, best, bestScore)
  }

  /** The candidate the loop keeps, starting from no candidate and a best score of 0. */
  function PickBest(cands: seq<Cand>): Option<nat> {
    ScanFrom(cands, 0, None, 0.0)
  }

  /** Every eligible candidate scores above the starting best score of 0. */
  predicate PositiveWhenEligible(cands: seq<Cand>) {
    forall j | 0 <= j < |cands| && cands[j].eligible :: cands[j].score > 0.0
  }

  /** What the loop has established after the first `i` candidates. */
  predicate ScanState(cands: seq<Cand>, i: nat, best: Option<nat>, bestScore: real)
    requires i <= |cands|
  {
    && (best.None? ==> bestScore == 0.0 && forall j | 0 <= j < i :: !cands[j].eligible)
    && (best.Some? ==> FirstBest(cands[..i], best.value) && bestScore == cands[best.value].score)
  }

  lemma {:induction false} ScanFromSpec(cands: seq<Cand>, i: nat, best: Option<nat>, bestScore: real)
    requires i <= |cands| && PositiveWhenEligible(cands) && ScanState(cands, i, best, bestScore)
    ensures var r := ScanFrom(cands, i, best, bestScore);
      && (r.None? <==> best.None? && forall j | i <= j < |cands| :: !cands[j].eligible)
      && (r.Some? ==> FirstBest(cands, r.value))
    decreases |cands| - i
  {
    if i == |cands| {
      assert cands[..i] == cands;
    } else {
      var c := cands[i];
      assert cands[..i + 1][..i] == cands[..i];
      if c.score > bestScore && c.eligible {
        assert ScanState(cands, i + 1, Some(i), c.score);
        ScanFromSpec(cands, i + 1, Some(i), c.score);
      } else {
        assert ScanState(cands, i + 1, best, bestScore);
        ScanFromSpec(cands, i + 1, best, bestScore);
      }
    }
  }

  /** The loop keeps no candidate exactly when none is eligible, and otherwise keeps the first best one. */
  lemma PickBestSpec(cands: seq<Cand>)
    requires PositiveWhenEligible(cands)
    ensures PickBest(cands).None? <==> forall j | 0 <= j < |cands| :: !cands[j].eligible
    ensures PickBest(cands).Some? ==> FirstBest(cands, PickBest(cands).value)
  {
    ScanFromSpec(cands, 0, None, 0.0);
  }

  /** At most one candidate is the first best one. */
  lemma FirstBestUnique(cands: seq<Cand>, k1: nat, k2: nat)
    requires FirstBest(cands, k1) && FirstBest(cands, k2)
    ensures k1 == k2
  {
  }

  /** The first candidate, in order, that satisfies a test: the fallback loops that `break` on their first success. */
  function FirstWhere(tests: seq<bool>): (r: Option<nat>)
    ensures r.None? <==> forall j | 0 <= j < |tests| :: !tests[j]
    ensures r.Some? ==> r.value < |tests| && tests[r.value] && forall j | 0 <= j < r.value :: !tests[j]
  {
    if |tests| == 0 then None
    else if tests[0] then Some(0)
    else
      var r := FirstWhere(tests[1..]);
      if r.Some? then Some(r.value + 1) else None
  }
}

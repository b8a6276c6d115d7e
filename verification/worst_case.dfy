/**
 * Choosing the worst-case frame: frame 0 is the first candidate, and a later
 * frame replaces the candidate only when its total is strictly larger.
 */
module WorstCase {
  import opened Wrappers
  import opened ProfileErrors

  /** `w` is a highest total, and no earlier frame reaches it. */
  predicate EarliestMax(totals: seq<int>, w: nat) {
    && w < |totals|
    && (forall j :: 0 <= j < |totals| ==> totals[j] <= totals[w])
    && (forall j :: 0 <= j < w ==> totals[j] < totals[w])
  }

  /** The loop over frames `k..`, with `best` the candidate among frames `..k`. */
  function WorstFrom(totals: seq<int>, k: nat, best: nat): (w: nat)
    requires best < k <= |totals|
    requires forall j :: 0 <= j < k ==> totals[j] <= totals[best]
    requires forall j :: 0 <= j < best ==> totals[j] < totals[best]
    ensures EarliestMax(totals, w)
    decreases |totals| - k
  {
    if k == |totals| then best
    else WorstFrom(totals, k + 1, if totals[best] < totals[k] then k else best)
  }

  /** The worst-case frame, or `NoFrames` when there is no frame to choose. */
  function SelectWorst(totals: seq<int>): (r: Result<nat, ProfileError>)
    ensures r.Failure? <==> |totals| == 0
    ensures r.Failure? ==> r.error == NoFrames
    ensures r.Success? ==> EarliestMax(totals, r.value)
  {
    if |totals| == 0 then Failure(NoFrames) else Success(WorstFrom(totals, 1, 0))
  }

  /** The earliest maximum is unique, so the selection is fully determined. */
  lemma EarliestMaxUnique(totals: seq<int>, a: nat, b: nat)
    requires EarliestMax(totals, a) && EarliestMax(totals, b)
    ensures a == b
  {
    assert totals[a] == totals[b];
  }
}

/**
 * The loops of the setup scripts that walk a list of names, check each one and
 * stop at the first that fails: which entry, if any, they stop at.
 */
module Scan {
  import opened Results

  /** The index of the first entry that fails `ok`, or `None` when every entry passes. */
  function FirstFailing<T>(xs: seq<T>, ok: T -> bool): (r: Option<nat>)
    ensures r.None? <==> forall i :: 0 <= i < |xs| ==> ok(xs[i])
    ensures r.Some? ==> r.value < |xs| && !ok(xs[r.value])
    ensures r.Some? ==> forall j :: 0 <= j < r.value ==> ok(xs[j])
  {
    if xs == [] then None
    else if !ok(xs[0]) then Some(0)
    else
      match FirstFailing(xs[1..], ok)
      case None => None
      case Some(k) => Some(k + 1)
  }

  /** A loop that has passed entries `0..k-1` and rejects entry `k` stops at `k`. */
  lemma FirstFailingAt<T>(xs: seq<T>, ok: T -> bool, k: nat)
    requires k < |xs| && !ok(xs[k])
    requires forall j :: 0 <= j < k ==> ok(xs[j])
    ensures FirstFailing(xs, ok) == Some(k)
  {
  }

  /** The results of `f` on every entry, or `None` as soon as one entry has none. */
  function MapAll<T, U>(xs: seq<T>, f: T -> Option<U>): (r: Option<seq<U>>)
    ensures r.Some? <==> forall i :: 0 <= i < |xs| ==> f(xs[i]).Some?
    ensures r.Some? ==> |r.value| == |xs|
    ensures r.Some? ==> forall i :: 0 <= i < |xs| ==> f(xs[i]) == Some(r.value[i])
  {
    if xs == [] then Some([])
    else
      match f(xs[0])
      case None => None
      case Some(y) =>
        match MapAll(xs[1..], f)
        case None => None
        case Some(ys) => Some([y] + ys)
  }
}

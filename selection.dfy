/** The nearest-candidate rule shared by transliterate.py and main.py: scan
    the candidates in order, keep the first one whose distance is strictly
    below the best so far (which starts at 2147483647), and report -1 when
    none is. */
module Selection {

  /** The starting value of `a`, the best distance so far. */
  const Sentinel: real := 2147483647.0

  /** The choice described without a loop: b is -1 when no eligible
      candidate is below Sentinel; otherwise b is eligible, below Sentinel,
      no farther than any eligible candidate and strictly nearer than every
      eligible candidate before it. */
  predicate IsFirstStrictMin(ds: seq<real>, ok: seq<bool>, b: int)
    requires |ok| == |ds|
  {
    if b == -1 then
      forall k :: 0 <= k < |ds| && ok[k] ==> ds[k] >= Sentinel
    else
      0 <= b < |ds| && ok[b] && ds[b] < Sentinel &&
      (forall k :: 0 <= k < |ds| && ok[k] ==> ds[b] <= ds[k]) &&
      (forall k :: 0 <= k < b && ok[k] ==> ds[b] < ds[k])
  }

  /** The best distance when b is the choice. */
  function Best(ds: seq<real>, b: int): real
    requires -1 <= b < |ds|
  {
    if b == -1 then Sentinel else ds[b]
  }

  /** The value of `b` after the loop has looked at every candidate;
      ds[k] is candidate k's distance and ok[k] whether it is compared. */
  function Choice(ds: seq<real>, ok: seq<bool>): (b: int)
    requires |ok| == |ds|
    ensures -1 <= b < |ds|
    ensures IsFirstStrictMin(ds, ok, b)
  {
    if |ds| == 0 then -1
    else
      var n := |ds| - 1;
      var b0 := Choice(ds[..n], ok[..n]);
      if ok[n] && ds[n] < Best(ds[..n], b0) then n else b0
  }

  /** There is only one such choice, so Choice is the one the declarative
      description picks. */
  lemma ChoiceUnique(ds: seq<real>, ok: seq<bool>, b1: int, b2: int)
    requires |ok| == |ds|
    requires IsFirstStrictMin(ds, ok, b1) && IsFirstStrictMin(ds, ok, b2)
    ensures b1 == b2
  {
  }

  /** Python's seq[b] for -n <= b < n: a negative index counts from the end,
      so the "nothing chosen" value -1 names the last element. */
  function PyIndex(b: int, n: nat): (k: nat)
    requires -(n as int) <= b < n
    ensures k < n
    ensures b >= 0 ==> k == b
    ensures b == -1 ==> k == n - 1
  {
    if b < 0 then b + n else b
  }
}

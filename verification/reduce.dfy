/** The reduction of the workers' reports into one convergence metric
    (`max_max_diff` in hotplate.c). */
module Reduce {

  /** The step of the running maximum: take `b` only when it is strictly larger. */
  function MaxF(a: real, b: real): (m: real)
    ensures a <= m && b <= m
    ensures m == a || m == b
  {
    if b > a then b else a
  }

  /** Reference definition: the largest element of a non-empty sequence. */
  function SeqMax(s: seq<real>): (m: real)
    requires |s| >= 1
    ensures forall i :: 0 <= i < |s| ==> s[i] <= m
    ensures exists i :: 0 <= i < |s| && s[i] == m
  {
    if |s| == 1 then s[0] else MaxF(SeqMax(s[..|s| - 1]), s[|s| - 1])
  }

  /** `max_max_diff(arr, n)`: start from arr[0] and scan arr[1..n). A count below one
      leaves the loop empty and returns arr[0]. */
  method MaxMaxDiff(arr: seq<real>, n: int) returns (m: real)
    requires 1 <= |arr| && n <= |arr|
    ensures forall i :: 0 <= i < n ==> arr[i] <= m
    ensures n >= 1 ==> exists i :: 0 <= i < n && arr[i] == m
    ensures n >= 1 ==> m == SeqMax(arr[..n])
    ensures n <= 1 ==> m == arr[0]
  {
    m := arr[0];
    var i := 1;
    while i < n
      invariant 1 <= i <= |arr| && (n >= 1 ==> i <= n) && (n <= 1 ==> i == 1)
      invariant m == SeqMax(arr[..i])
    {
      assert arr[..i + 1][..i] == arr[..i];
      if arr[i] > m {
        m := arr[i];
      }
      i := i + 1;
    }
    if n >= 1 {
      assert arr[..n][0] == arr[0];
      assert forall j :: 0 <= j < n ==> arr[..n][j] == arr[j];
    }
  }

  /** Two non-empty sequences holding the same values have the same maximum. */
  lemma SeqMaxSameElements(s: seq<real>, t: seq<real>)
    requires |s| >= 1 && |t| >= 1
    requires forall i :: 0 <= i < |s| ==> s[i] in t
    requires forall j :: 0 <= j < |t| ==> t[j] in s
    ensures SeqMax(s) == SeqMax(t)
  {
    var i :| 0 <= i < |s| && s[i] == SeqMax(s);
    var j :| 0 <= j < |t| && t[j] == SeqMax(t);
    var j' :| 0 <= j' < |t| && t[j'] == s[i];
    var i' :| 0 <= i' < |s| && s[i'] == t[j];
  }
}

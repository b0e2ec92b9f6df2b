/**
 * Choosing the winners at the end of the game: the dealer finds the highest score,
 * starting its search from -1, then lists, in id order, every player holding it.
 */
module Scores {

  /** The largest of -1 and the scores in `s`. */
  function Best(s: seq<int>): (m: int)
    ensures m >= -1
    ensures forall k :: 0 <= k < |s| ==> s[k] <= m
    ensures m == -1 || exists k :: 0 <= k < |s| && s[k] == m
  {
    if s == [] then -1
    else if s[|s| - 1] > Best(s[..|s| - 1]) then s[|s| - 1]
    else Best(s[..|s| - 1])
  }

  /** The ids below `n`, in increasing order, whose score is `m`. */
  function Holding(s: seq<int>, m: int, n: nat): (w: seq<nat>)
    requires n <= |s|
    ensures forall k :: k in w <==> 0 <= k < n && s[k] == m
    ensures forall a, b :: 0 <= a < b < |w| ==> w[a] < w[b]
    ensures forall a :: 0 <= a < |w| ==> w[a] < n
  {
    if n == 0 then []
    else Holding(s, m, n - 1) + (if s[n - 1] == m then [n - 1] else [])
  }

  /** No player outscores player `k`. */
  predicate Leads(s: seq<int>, k: int)
  {
    0 <= k < |s| && forall j :: 0 <= j < |s| ==> s[j] <= s[k]
  }

  /** The players tied at the highest score. */
  function Winners(s: seq<int>): seq<nat>
  {
    Holding(s, Best(s), |s|)
  }

  /**
   * With scores that never go below 0, the winners are exactly the players no other
   * player outscores, listed once each in id order, and there is at least one winner
   * as soon as there is a player.
   */
  lemma WinnersAreLeaders(s: seq<int>)
    requires forall k :: 0 <= k < |s| ==> s[k] >= 0
    ensures forall k :: k in Winners(s) <==> Leads(s, k)
    ensures forall a, b :: 0 <= a < b < |Winners(s)| ==> Winners(s)[a] < Winners(s)[b]
    ensures |s| > 0 ==> Winners(s) != []
  {
    var m := Best(s);
    forall k | Leads(s, k)
      ensures s[k] == m
    {
      if m != -1 {
        var i :| 0 <= i < |s| && s[i] == m;
        assert s[i] <= s[k];
      }
    }
    if |s| > 0 {
      assert s[0] <= m;
      var i :| 0 <= i < |s| && s[i] == m;
      assert i in Winners(s);
    }
  }
}

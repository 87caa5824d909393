/**
 Best Time to Buy and Sell Stock (dsa/lc_121.cpp): one pass over `prices`
 tracking the lowest price so far (`carrier`) and the best gain so far (`ans`).
 */
module StockProfit {

  function Max(x: int, y: int): int
  {
    if x < y then y else x
  }

  /** The lowest element of a non-empty sequence, folded left as `std::min` would. */
  function Min(s: seq<int>): (m: int)
    requires |s| > 0
    ensures m in s
    ensures forall k :: 0 <= k < |s| ==> m <= s[k]
  {
    if |s| == 1 then s[0]
    else
      var m' := Min(s[..|s| - 1]);
      if s[|s| - 1] < m' then s[|s| - 1] else m'
  }

  /**
   Closed-form meaning of the answer: `p` is the largest `s[j] - s[i]` over
   `i < j`, or 0 when no such difference is positive.
   */
  ghost predicate IsMaxProfit(s: seq<int>, p: int)
  {
    && p >= 0
    && (forall i, j :: 0 <= i < j < |s| ==> s[j] - s[i] <= p)
    && (p > 0 ==> exists i, j :: 0 <= i < j < |s| && s[j] - s[i] == p)
  }

  /**
   The best gain on `s`: the best gain without the last day, or selling on
   the last day after buying at the lowest earlier price.
   */
  function Profit(s: seq<int>): int
  {
    if |s| < 2 then 0
    else
      var init := s[..|s| - 1];
      Max(Profit(init), s[|s| - 1] - Min(init))
  }

  /** No pair of days gains more than `Profit`, and `Profit` is never negative. */
  lemma {:induction false} ProfitIsUpperBound(s: seq<int>)
    ensures Profit(s) >= 0
    ensures forall i, j :: 0 <= i < j < |s| ==> s[j] - s[i] <= Profit(s)
  {
    if |s| >= 2 {
      var n := |s| - 1;
      var init := s[..n];
      ProfitIsUpperBound(init);
      var lo := Min(init);
      assert Profit(s) == Max(Profit(init), s[n] - lo);
      forall i, j | 0 <= i < j < |s| ensures s[j] - s[i] <= Profit(s) {
        assert init[i] == s[i] && lo <= init[i];
        if j < n {
          assert init[j] == s[j] && init[j] - init[i] <= Profit(init);
        }
      }
    }
  }

  /** A positive `Profit` is the gain of some buy day before some sell day. */
  lemma {:induction false} ProfitIsAchieved(s: seq<int>)
    ensures Profit(s) > 0 ==> exists i, j :: 0 <= i < j < |s| && s[j] - s[i] == Profit(s)
  {
    if |s| >= 2 && Profit(s) > 0 {
      var n := |s| - 1;
      var init := s[..n];
      if Profit(s) == Profit(init) {
        ProfitIsAchieved(init);
        var i, j :| 0 <= i < j < |init| && init[j] - init[i] == Profit(init);
        assert s[j] - s[i] == Profit(s);
      } else {
        var i :| 0 <= i < |init| && init[i] == Min(init);
        assert s[n] - s[i] == Profit(s);
      }
    }
  }

  /** `Profit` is the closed-form maximum. */
  lemma ProfitIsMax(s: seq<int>)
    ensures IsMaxProfit(s, Profit(s))
  {
    ProfitIsUpperBound(s);
    ProfitIsAchieved(s);
  }

  /** Extending a prefix by one day updates `Min` and `Profit` as one loop iteration does. */
  lemma ProfitStep(s: seq<int>, i: int)
    requires 1 <= i < |s|
    ensures Min(s[..i + 1]) == if s[i] < Min(s[..i]) then s[i] else Min(s[..i])
    ensures Profit(s[..i + 1]) == if s[i] > Min(s[..i]) then Max(Profit(s[..i]), s[i] - Min(s[..i])) else Profit(s[..i])
  {
    assert s[..i + 1][..i] == s[..i];
    ProfitIsUpperBound(s[..i]);
  }

  /** At most one value meets the closed form. */
  lemma MaxProfitUnique(s: seq<int>, p: int, q: int)
    requires IsMaxProfit(s, p) && IsMaxProfit(s, q)
    ensures p == q
  {
  }

  /** Prices that never rise (a single day included) give no profit. */
  lemma NonIncreasingYieldsZero(s: seq<int>)
    requires forall i, j :: 0 <= i < j < |s| ==> s[j] <= s[i]
    ensures Profit(s) == 0
  {
  }

  /**
   `Solution::maxProfit`. `prices[0]` is read unconditionally, so `prices`
   must be non-empty; `prices` is never written (no `modifies`).
   */
  method MaxProfit(prices: array<int>) returns (ans: int)
    requires prices.Length > 0
    ensures ans >= 0
    ensures forall i, j :: 0 <= i < j < prices.Length ==> prices[j] - prices[i] <= ans
    ensures ans > 0 ==> exists i, j :: 0 <= i < j < prices.Length && prices[j] - prices[i] == ans
    ensures ans == Profit(prices[..])
  {
    ans := 0;
    var carrier := prices[0];
    for i := 1 to prices.Length
      invariant carrier == Min(prices[..i])
      invariant ans == Profit(prices[..i])
    {
      ProfitStep(prices[..], i);
      if prices[i] > carrier {
        ans := Max(ans, prices[i] - carrier);
      }
      carrier := if prices[i] < carrier then prices[i] else carrier;
    }
    assert prices[..] == prices[..prices.Length];
    ProfitIsMax(prices[..]);
  }
}

# Two array exercises: Two Sum and Best Time to Buy and Sell Stock

This project models the two algorithm exercises of the repository and proves
what each one computes.

- `TwoSum` (`two_sum.dfy`) models `Solution.twoSum` of `dsa/lc_1.py`: one pass
  over `nums` with a dictionary `mp` from each value seen so far to the last
  index holding it. At index `i` it looks up `target - nums[i]`; on a hit it
  returns `[mp[req], i]` at once, otherwise it stores `mp[nums[i]] = i`
  (overwriting an earlier index of the same value). With no hit it returns `[]`.
  The method keeps the dictionary as a `map<int, int>` and the early return
  inside the loop. It is proved against a characterisation (`IsFirstPair`) and
  against an independent recursive reference definition that uses no
  dictionary (`Search`).
- `StockProfit` (`max_profit.dfy`) models `Solution::maxProfit` of
  `dsa/lc_121.cpp`: one pass over `prices` keeping the running minimum
  `carrier` and the best gain `ans`. It is proved equal to a recursive
  definition `Profit`, and `Profit` is proved to be the closed-form maximum of
  `prices[j] - prices[i]` over `i < j`, floored at 0 (`IsMaxProfit`).

Both inputs are `array<int>` and neither method has a `modifies` clause, so the
verifier also establishes that neither method writes its input.

## Model

| member | source | states |
|---|---|---|
| TwoSum.TwoSum | dsa/lc_1.py:4-16 | The result has length 0 or 2. A two-element result `[a, b]` has `0 <= a < b < len(nums)` and `nums[a] + nums[b] == target`. The result is `[]` exactly when no such pair exists. `b` is the smallest second index of any pair, and `a` is the largest index pairing with that `b`. The result equals the reference `Search`. The loop invariant says the keys of `mp` are exactly the values of `nums[..i]`, each mapped to its last index below `i`, and no pair ends before `i`. |
| TwoSum.LastIndex | dsa/lc_1.py:11-14 | The last index holding a value (what `mp[req]` holds after the overwrites), or none exactly when the value does not occur. |
| TwoSum.SearchIsFirstPair | dsa/lc_1.py:8-16 | The dictionary-free reference answer is sound and complete, with the same choice of pair: smallest `b`, then largest `a`. |
| TwoSum.FirstPairUnique | dsa/lc_1.py:8-16 | At most one result meets the characterisation, so the method's result is fully determined. |
| TwoSum.RepeatedValueExample | dsa/lc_1.py:14 | The overwrite makes `[1, 1, 5]` with target 6 answer `[1, 2]`, the later index of the repeated value. |
| StockProfit.Min | dsa/lc_121.cpp:5-12 | The running `carrier` value: an element of the prefix that is at most every element of it. |
| StockProfit.ProfitIsUpperBound | dsa/lc_121.cpp:4-13 | The profit is never negative and no later-minus-earlier price difference exceeds it. |
| StockProfit.ProfitIsAchieved | dsa/lc_121.cpp:8-9 | A positive profit equals `prices[j] - prices[i]` for some `i < j`. |
| StockProfit.ProfitIsMax | dsa/lc_121.cpp:7-15 | The profit is the maximum of `prices[j] - prices[i]` over `i < j`, floored at 0. |
| StockProfit.ProfitStep | dsa/lc_121.cpp:8-12 | Adding day `i` to the prefix changes the minimum to `min(carrier, prices[i])`. It raises the profit to `max(ans, prices[i] - carrier)` only when `prices[i] > carrier`, which is exactly one loop iteration. |
| StockProfit.MaxProfitUnique | dsa/lc_121.cpp:7-15 | At most one value meets that closed form. |
| StockProfit.NonIncreasingYieldsZero | dsa/lc_121.cpp:4-13 | Prices that never rise, a single day included, give 0. |
| StockProfit.MaxProfit | dsa/lc_121.cpp:3-15 | Requires a non-empty `prices`, since `prices[0]` is read unconditionally. The result is `>= 0`, bounds every `prices[j] - prices[i]` with `i < j`, and is achieved by some such pair when positive. It equals `Profit(prices)`. The loop invariants are `carrier == Min(prices[..i])` and `ans == Profit(prices[..i])`. |

## Left out

- StockProfit.MaxProfit: does not model the 32-bit `int` overflow of `prices[i] - carrier`; prices are unbounded integers, so the result is the mathematical difference.
- `nums` and `prices` are modelled as arrays that the methods only read. Aliasing with other data of a caller is not modelled.
- The LLM prompt fan-out service (`ai/main2.py`), the single LLM call script (`ai/main.py`) and the demo web routes (`backend/main2.py`) are not part of this model: they consist of HTTP calls to an external service, string templates, web-framework handlers and startup environment checks, with no algorithm to verify.

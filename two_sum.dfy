/**
 Two Sum (dsa/lc_1.py): a single left-to-right pass over `nums` that keeps a
 dictionary from each value seen so far to the last index holding it, and
 stops at the first index `i` whose complement `target - nums[i]` is already
 a key.
 */
module TwoSum {

  datatype Option<T> = None | Some(value: T)

  /** Indices `a < b` of `s` whose values add up to `target`. */
  predicate IsPair(s: seq<int>, target: int, a: int, b: int)
  {
    0 <= a < b < |s| && s[a] + s[b] == target
  }

  /** No pair of `s` has its second index below `n`. */
  ghost predicate NoPairBefore(s: seq<int>, target: int, n: int)
  {
    forall a, b :: IsPair(s, target, a, b) ==> n <= b
  }

  /**
   The answer the dictionary pass promises: `[]` exactly when no pair exists;
   otherwise `[a, b]` with `b` the smallest second index of any pair and `a`
   the largest first index that pairs with that `b`.
   */
  ghost predicate IsFirstPair(s: seq<int>, target: int, r: seq<int>)
  {
    || (r == [] && NoPairBefore(s, target, |s|))
    || (&& |r| == 2
        && IsPair(s, target, r[0], r[1])
        && NoPairBefore(s, target, r[1])
        && forall a :: IsPair(s, target, a, r[1]) ==> a <= r[0])
  }

  /** `k` is the last index below `n` at which `s` holds `v`. */
  predicate IsLastIndex(s: seq<int>, n: int, v: int, k: int)
  {
    0 <= k < n <= |s| && s[k] == v && forall m :: k < m < n ==> s[m] != v
  }

  /** The last index of `v` in `s`, if any. */
  function LastIndex(s: seq<int>, v: int): (r: Option<nat>)
    ensures r.Some? ==> IsLastIndex(s, |s|, v, r.value)
    ensures r.None? <==> forall m :: 0 <= m < |s| ==> s[m] != v
  {
    if |s| == 0 then None
    else if s[|s| - 1] == v then Some(|s| - 1)
    else LastIndex(s[..|s| - 1], v)
  }

  /**
   Reference definition without a dictionary: the answer for `s` is the answer
   for `s` without its last element, or, if that is `[]`, the last earlier
   index that completes a pair with the last element.
   */
  function Search(s: seq<int>, target: int): seq<int>
  {
    if |s| == 0 then []
    else
      var init := s[..|s| - 1];
      var prior := Search(init, target);
      if prior != [] then prior
      else match LastIndex(init, target - s[|s| - 1])
        case Some(a) => [a, |s| - 1]
        case None => []
  }

  /** The characterisation `IsFirstPair` admits at most one answer. */
  lemma FirstPairUnique(s: seq<int>, target: int, r1: seq<int>, r2: seq<int>)
    requires IsFirstPair(s, target, r1) && IsFirstPair(s, target, r2)
    ensures r1 == r2
  {
  }

  /** The reference definition meets the characterisation. */
  lemma {:induction false} SearchIsFirstPair(s: seq<int>, target: int)
    ensures IsFirstPair(s, target, Search(s, target))
  {
    if |s| > 0 {
      var n := |s| - 1;
      var init := s[..n];
      SearchIsFirstPair(init, target);
      var prior := Search(init, target);
      // a pair of `init` is exactly a pair of `s` that ends before `n`
      assert forall a, b :: IsPair(init, target, a, b) <==> IsPair(s, target, a, b) && b < n by {
        forall a, b ensures IsPair(init, target, a, b) <==> IsPair(s, target, a, b) && b < n {
          if 0 <= a < b < n {
            assert init[a] == s[a] && init[b] == s[b];
          }
        }
      }
      if prior == [] {
        assert forall m :: 0 <= m < n ==> init[m] == s[m];
        match LastIndex(init, target - s[n])
        case Some(a) =>
          assert IsPair(s, target, a, n);
        case None =>
      }
    }
  }

  /** A repeated value is answered with its later index: `[1, 2]`, not `[0, 2]`. */
  lemma RepeatedValueExample()
    ensures Search([1, 1, 5], 6) == [1, 2]
  {
    assert [1, 1, 5][..2] == [1, 1];
    assert [1, 1][..1] == [1];
  }

  /**
   `Solution.twoSum`. `nums` is read and never written (no `modifies`); the
   loop keeps `mp` mapping every value of `nums[..i]` to its last index.
   */
  method TwoSum(nums: array<int>, target: int) returns (r: seq<int>)
    ensures |r| == 0 || |r| == 2
    ensures |r| == 2 ==> IsPair(nums[..], target, r[0], r[1])
    ensures r == [] <==> forall a, b :: 0 <= a < b < nums.Length ==> nums[a] + nums[b] != target
    ensures IsFirstPair(nums[..], target, r)
    ensures r == Search(nums[..], target)
  {
    var mp: map<int, int> := map[];
    for i := 0 to nums.Length
      invariant forall v :: v in mp ==> IsLastIndex(nums[..], i, v, mp[v])
      invariant forall k :: 0 <= k < i ==> nums[k] in mp
      invariant NoPairBefore(nums[..], target, i)
    {
      var req := target - nums[i];
      if req in mp {
        r := [mp[req], i];
        assert IsLastIndex(nums[..], i, req, mp[req]);
        assert IsPair(nums[..], target, r[0], r[1]);
        SearchIsFirstPair(nums[..], target);
        FirstPairUnique(nums[..], target, r, Search(nums[..], target));
        return;
      }
      forall a | 0 <= a < i ensures nums[a] + nums[i] != target {
        assert nums[a] in mp;
      }
      mp := mp[nums[i] := i];
    }
    r := [];
    forall a, b | 0 <= a < b < nums.Length ensures nums[a] + nums[b] != target {
      assert !IsPair(nums[..], target, a, b);
    }
    SearchIsFirstPair(nums[..], target);
    FirstPairUnique(nums[..], target, r, Search(nums[..], target));
  }
}

/** The lower-bound search over a non-decreasing slice of `int64` values.

    `CountLess` is the reference definition of the answer, `IsInsertionPoint`
    its local characterisation, and `LowerBound` the binary search that
    computes it with `int64` indices and an overflow-free midpoint. */
module Search {
  import opened Int64

  /** The slice is non-decreasing: the only precondition of the search. */
  predicate Sorted(s: seq<int64>) {
    forall i, j :: 0 <= i <= j < |s| ==> s[i] <= s[j]
  }

  /** The number of elements of `s` strictly less than `v`. */
  function CountLess(s: seq<int64>, v: int64): (n: nat)
    ensures n <= |s|
    ensures n == |s| ==> forall i :: 0 <= i < |s| ==> s[i] < v
  {
    if |s| == 0 then 0
    else (if s[0] < v then 1 else 0) + CountLess(s[1..], v)
  }

  /** `k` is a place where `v` can be inserted while keeping a sorted `s`
      sorted, with every element before it strictly smaller. */
  predicate IsInsertionPoint(s: seq<int64>, v: int64, k: int) {
    && 0 <= k <= |s|
    && (k == 0 || s[k - 1] < v)
    && (k == |s| || v <= s[k])
  }

  /** Whenever `s` splits at `k` into a part below `v` and a part at or above
      it, exactly `k` elements are below `v` (sorted or not). */
  lemma {:induction false} CountLessOfSplit(s: seq<int64>, v: int64, k: int)
    requires 0 <= k <= |s|
    requires forall i :: 0 <= i < k ==> s[i] < v
    requires forall i :: k <= i < |s| ==> v <= s[i]
    ensures CountLess(s, v) == k
  {
    if |s| == 0 {
    } else if k == 0 {
      CountLessOfSplit(s[1..], v, 0);
    } else {
      CountLessOfSplit(s[1..], v, k - 1);
    }
  }

  /** In a sorted slice the elements below `v` form a prefix of length
      `CountLess(s, v)`, and the rest are at or above `v`. */
  lemma {:induction false} SortedSplitsAtCount(s: seq<int64>, v: int64)
    requires Sorted(s)
    ensures forall i :: 0 <= i < CountLess(s, v) ==> s[i] < v
    ensures forall i :: CountLess(s, v) <= i < |s| ==> v <= s[i]
  {
    if |s| > 0 {
      var t := s[1..];
      assert Sorted(t);
      SortedSplitsAtCount(t, v);
      if s[0] < v {
        forall i | 0 <= i < CountLess(s, v) ensures s[i] < v {
          if i > 0 { assert s[i] == t[i - 1]; }
        }
        forall i | CountLess(s, v) <= i < |s| ensures v <= s[i] {
          assert s[i] == t[i - 1];
        }
      } else {
        assert CountLess(s, v) == 0 by {
          forall i | 0 <= i < |t| ensures v <= t[i] {
            assert s[0] <= s[i + 1];
          }
          CountLessOfSplit(t, v, 0);
        }
      }
    }
  }

  /** On sorted input the insertion point is unique and equals the number of
      smaller elements: both directions of the characterisation. */
  lemma InsertionPointIffCount(s: seq<int64>, v: int64, k: int)
    requires Sorted(s)
    ensures IsInsertionPoint(s, v, k) <==> k == CountLess(s, v)
  {
    SortedSplitsAtCount(s, v);
    if IsInsertionPoint(s, v, k) {
      forall i | 0 <= i < k ensures s[i] < v {
        assert s[i] <= s[k - 1];
      }
      forall i | k <= i < |s| ensures v <= s[i] {
        assert s[k] <= s[i];
      }
      CountLessOfSplit(s, v, k);
    }
  }

  /** A larger target never has fewer smaller elements. */
  lemma {:induction false} CountLessMonotone(s: seq<int64>, v1: int64, v2: int64)
    requires v1 <= v2
    ensures CountLess(s, v1) <= CountLess(s, v2)
  {
    if |s| > 0 {
      CountLessMonotone(s[1..], v1, v2);
    }
  }

  /** The result is the length exactly when every element is below the target. */
  lemma {:induction false} CountIsLengthIffAllBelow(s: seq<int64>, v: int64)
    ensures CountLess(s, v) == |s| <==> forall i :: 0 <= i < |s| ==> s[i] < v
  {
    if forall i :: 0 <= i < |s| ==> s[i] < v {
      CountLessOfSplit(s, v, |s|);
    }
  }

  /** The result is zero exactly when no element is below the target; on sorted
      input that means the slice is empty or the target is at most its first
      element. */
  lemma {:induction false} CountIsZeroIffNoneBelow(s: seq<int64>, v: int64)
    requires Sorted(s)
    ensures CountLess(s, v) == 0 <==> forall i :: 0 <= i < |s| ==> v <= s[i]
    ensures CountLess(s, v) == 0 <==> |s| == 0 || v <= s[0]
  {
    SortedSplitsAtCount(s, v);
    if |s| == 0 || v <= s[0] {
      InsertionPointIffCount(s, v, 0);
    }
  }

  /** With one or more copies of the target present, the result is the index
      of the first copy, never a later one. */
  lemma LeftmostOccurrence(s: seq<int64>, v: int64, j: int)
    requires Sorted(s)
    requires 0 <= j < |s| && s[j] == v
    ensures CountLess(s, v) <= j
    ensures CountLess(s, v) < |s| && s[CountLess(s, v)] == v
    ensures forall i :: 0 <= i < CountLess(s, v) ==> s[i] != v
  {
    SortedSplitsAtCount(s, v);
  }

  /** Number of binary digits of `n`: the probes a search over `n` elements
      needs at most. */
  function Bits(n: nat): nat {
    if n == 0 then 0 else 1 + Bits(n / 2)
  }

  function Pow2(k: nat): nat {
    if k == 0 then 1 else 2 * Pow2(k - 1)
  }

  /** `Bits(n)` is floor(log2 n) + 1 for positive `n`. */
  lemma {:induction false} BitsIsLog(n: nat)
    ensures n < Pow2(Bits(n))
    ensures n > 0 ==> Pow2(Bits(n) - 1) <= n
  {
    if n > 0 {
      BitsIsLog(n / 2);
    }
  }

  lemma {:induction false} BitsMonotone(m: nat, n: nat)
    requires m <= n
    ensures Bits(m) <= Bits(n)
  {
    if m > 0 {
      BitsMonotone(m / 2, n / 2);
    }
  }

  /** The midpoint of a non-empty half-open range [lo, hi), computed as
      lo + (hi - lo) / 2 so that no intermediate leaves `int64`; each of the
      two ranges left after probing it is at most half as long. */
  function Midpoint(lo: int64, hi: int64): (mid: int64)
    requires 0 <= lo < hi
    ensures lo <= mid < hi
    ensures mid - lo <= (hi - lo) / 2 && hi - (mid + 1) <= (hi - lo) / 2
  {
    lo + (hi - lo) / 2
  }

  /** The leftmost index at which `v` can be inserted into the sorted slice
      `a`: the number of elements strictly less than `v`. The ghost `probes`
      counts the comparisons made. */
  method LowerBound(a: seq<int64>, v: int64) returns (r: int64, ghost probes: nat)
    requires |a| <= MAX
    requires Sorted(a)
    ensures 0 <= r as int <= |a|
    ensures forall i :: 0 <= i < r as int ==> a[i] < v
    ensures forall i :: r as int <= i < |a| ==> v <= a[i]
    ensures r as int == CountLess(a, v)
    ensures probes <= Bits(|a|)
  {
    var lo: int64 := 0;
    var hi: int64 := |a| as int64;
    probes := 0;
    while lo < hi
      invariant 0 <= lo <= hi <= |a| as int64
      invariant forall i :: 0 <= i < lo as int ==> a[i] < v
      invariant forall i :: hi as int <= i < |a| ==> v <= a[i]
      invariant probes + Bits((hi - lo) as int) <= Bits(|a|)
      decreases hi - lo
    {
      var mid := Midpoint(lo, hi);
      ghost var size := (hi - lo) as int;
      if a[mid] < v {
        lo := mid + 1;
      } else {
        hi := mid;
      }
      BitsMonotone((hi - lo) as int, size / 2);
      probes := probes + 1;
    }
    r := lo;
    CountLessOfSplit(a, v, r as int);
  }
}

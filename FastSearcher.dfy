/** The adaptive sorted-array search: a hybrid of binary and interpolation
    search over a non-decreasing array of integers. A lookup either yields an
    index holding the target or signals that the target is absent (C#'s
    `ItemNotFoundException`). */
module FastSearcher {

  /** Outcome of a lookup: an index of some occurrence, or "not found". */
  datatype SearchResult = Found(index: nat) | NotFound

  /** The caller's precondition: the searched values are non-decreasing. */
  ghost predicate Sorted(s: seq<int>)
  {
    forall i, j :: 0 <= i <= j < |s| ==> s[i] <= s[j]
  }

  /** The binary probe: the midpoint of [low, high], rounded down. */
  function Midpoint(low: int, high: int): (p: int)
    requires low <= high
    ensures low <= p <= high
    ensures 0 <= (high - p) - (p - low) <= 1
  {
    low + (high - low) / 2
  }

  /** Forces x into the closed range [low, high]. */
  function Clamp(x: int, low: int, high: int): (r: int)
    requires low <= high
    ensures low <= r <= high
    ensures low <= x <= high ==> r == x
    ensures x < low ==> r == low
    ensures high < x ==> r == high
  {
    if x < low then low else if high < x then high else x
  }

  /** The raw interpolation estimate: where item would sit in [low, high] if
      the values grew linearly from vLow at low to vHigh at high. The numerator
      is never negative where it is used, so Dafny's division agrees with C#'s
      truncating integer division. */
  function InterpolationEstimate(low: int, high: int, vLow: int, vHigh: int, item: int): int
    requires vLow < vHigh
  {
    low + (item - vLow) * (high - low) / (vHigh - vLow)
  }

  /** The interpolation probe: the estimate, clamped into [low, high]. */
  function InterpolationProbe(low: int, high: int, vLow: int, vHigh: int, item: int): (p: int)
    requires low <= high && vLow < vHigh
    ensures low <= p <= high
  {
    Clamp(InterpolationEstimate(low, high, vLow, vHigh, item), low, high)
  }

  // Facts of non-linear integer arithmetic behind InterpolationProbeExact.

  lemma MulMonotone(x: int, y: int, w: int)
    requires 0 <= x <= y && 0 <= w
    ensures 0 <= x * w <= y * w
  {
  }

  lemma DivBelow(n: int, d: int, w: int)
    requires 0 <= n <= d * w && 0 < d
    ensures 0 <= n / d <= w
  {
  }

  lemma MulCancelStrict(d: int, x: int, y: int)
    requires 0 < d && d * x < d * y
    ensures x < y
  {
  }

  lemma DivExact(d: int, w: int)
    requires 0 < d
    ensures (d * w) / d == w
  {
    var q, r := (d * w) / d, (d * w) % d;
    assert d * w == d * q + r && 0 <= r < d;
    assert d * (q + 1) == d * q + d;
    MulCancelStrict(d, w, q + 1);
    assert d * (w + 1) == d * w + d;
    MulCancelStrict(d, q, w + 1);
  }

  /** When the target lies within the values at the range's ends, the
      interpolation estimate already falls inside [low, high], so the clamp
      never changes it; at either end value it lands exactly on that end. */
  lemma InterpolationProbeExact(low: int, high: int, vLow: int, vHigh: int, item: int)
    requires low <= high && vLow < vHigh && vLow <= item <= vHigh
    ensures low <= InterpolationEstimate(low, high, vLow, vHigh, item) <= high
    ensures InterpolationProbe(low, high, vLow, vHigh, item) == InterpolationEstimate(low, high, vLow, vHigh, item)
    ensures item == vLow ==> InterpolationProbe(low, high, vLow, vHigh, item) == low
    ensures item == vHigh ==> InterpolationProbe(low, high, vLow, vHigh, item) == high
  {
    var n, w, d := item - vLow, high - low, vHigh - vLow;
    MulMonotone(n, d, w);
    assert d * w == w * d;
    DivBelow(n * w, d, w);
    if item == vHigh {
      DivExact(d, w);
      assert n * w == d * w;
    }
  }

  /** Searches the sorted array a for item. Each round it keeps the live range
      [low, high] that still holds every occurrence of item, answers at once
      when that range holds one repeated value or when item lies outside its
      end values, and otherwise probes the interpolation estimate and the
      binary midpoint, then keeps only the segment left of both probes,
      between them, or right of both. */
  method FindIndex(a: array<int>, item: int) returns (r: SearchResult)
    requires Sorted(a[..])
    ensures r.Found? ==> r.index < a.Length && a[r.index] == item
    ensures r.NotFound? <==> forall i :: 0 <= i < a.Length ==> a[i] != item
  {
    if a.Length == 0 {
      return NotFound;
    }
    var low, high := 0, a.Length - 1;
    while low <= high
      invariant 0 <= low && high < a.Length && low <= high + 1
      invariant forall i :: 0 <= i < a.Length && a[i] == item ==> low <= i <= high
      decreases high - low
    {
      if a[low] == a[high] {
        // The whole live range holds one value; this also rules out a zero
        // divisor in the interpolation estimate.
        if item == a[low] {
          return Found(low);
        }
        assert forall i :: low <= i <= high ==> a[low] <= a[i] <= a[high];
        return NotFound;
      }
      if item < a[low] || item > a[high] {
        assert forall i :: low <= i <= high ==> a[low] <= a[i] <= a[high];
        return NotFound;
      }
      assert a[low] < a[high] by {
        assert a[..][low] <= a[..][high];
      }
      var indexInterpolation := InterpolationProbe(low, high, a[low], a[high], item);
      var indexBinary := Midpoint(low, high);
      if a[indexInterpolation] == item {
        return Found(indexInterpolation);
      }
      if a[indexBinary] == item {
        return Found(indexBinary);
      }
      var left, right := indexInterpolation, indexBinary;
      if right < left {
        left, right := right, left;
      }
      if item < a[left] {
        assert forall i :: left <= i < a.Length ==> a[left] <= a[i];
        high := left - 1;
      } else if item < a[right] {
        assert forall i :: 0 <= i <= left ==> a[i] <= a[left];
        assert forall i :: right <= i < a.Length ==> a[right] <= a[i];
        low, high := left + 1, right - 1;
      } else {
        assert forall i :: 0 <= i <= right ==> a[i] <= a[right];
        low := right + 1;
      }
    }
    return NotFound;
  }
}

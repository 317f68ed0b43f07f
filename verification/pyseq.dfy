/**
  The few pieces of Python list semantics the recommender relies on:
  an optional value (the `None` that a failed lookup returns), `min`,
  and slicing `s[start:stop]` with step 1, including Python's treatment of
  negative and out-of-range bounds (pandas `iloc[start:stop]` follows the
  same rules).
 */
module PySeq {

  datatype Option<+T> = None | Some(value: T)

  function Min(a: int, b: int): (r: int)
  {
    if a <= b then a else b
  }

  /** Normalises one slice bound against a sequence of length `n`:
      a negative bound counts from the end, and the result is clamped to [0, n]. */
  function Clamp(i: int, n: nat): (r: nat)
    ensures r <= n
    ensures 0 <= i ==> r == Min(i, n)
    ensures i < 0 && 0 <= i + n ==> r == i + n
    ensures i + n < 0 ==> r == 0
  {
    if i < 0 then (if i + n < 0 then 0 else i + n)
    else if i > n then n
    else i
  }

  /** Python's `s[start:stop]`: never fails, whatever the bounds. */
  function Slice<T>(s: seq<T>, start: int, stop: int): (r: seq<T>)
    ensures |r| <= |s|
    ensures |r| == if Clamp(start, |s|) < Clamp(stop, |s|) then Clamp(stop, |s|) - Clamp(start, |s|) else 0
    ensures 0 <= start <= stop ==> r == s[Min(start, |s|)..Min(stop, |s|)]
    ensures 0 <= start && 0 <= stop ==> |r| <= stop - start || r == []
    ensures forall k :: 0 <= k < |r| ==>
      Clamp(start, |s|) + k < |s| && r[k] == s[Clamp(start, |s|) + k]
  {
    var lo := Clamp(start, |s|);
    var hi := Clamp(stop, |s|);
    if lo < hi then s[lo..hi] else []
  }
}

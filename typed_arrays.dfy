/** The typed-array operations `pack` uses: zero-filled allocation,
    `subarray(begin, end).fill(v)`, `set(src, offset)`, and the conversion a
    `Uint32Array` applies to every number stored in it. */
module TypedArrays {

  /** The contents of a freshly allocated typed array of length `n`. */
  function Zeros(n: nat): (r: seq<int>)
    ensures |r| == n && forall t :: 0 <= t < n ==> r[t] == 0
  {
    seq(n, _ => 0)
  }

  /** A non-negative integer as a `Uint32Array` stores it: modulo 2^32. */
  function U32(x: nat): (r: nat)
    ensures r < 0x1_0000_0000
    ensures x < 0x1_0000_0000 ==> r == x
  {
    x % 0x1_0000_0000
  }

  function Min(a: nat, b: nat): nat
  {
    if a <= b then a else b
  }

  /** The contents after `subarray(lo, hi).fill(v)`: `subarray` clamps both ends
      to the length, so exactly the indices in `[min(lo, |s|), min(hi, |s|))`
      receive `v`. */
  function Filled(s: seq<int>, lo: nat, hi: nat, v: int): (r: seq<int>)
    ensures |r| == |s|
    ensures forall t :: 0 <= t < |s| ==>
              r[t] == (if lo <= t < hi then v else s[t])
  {
    var begin, end := Min(lo, |s|), Min(hi, |s|);
    var r := seq(|s|, t requires 0 <= t < |s| => if begin <= t < end then v else s[t]);
    assert forall t :: 0 <= t < |s| ==> r[t] == if begin <= t < end then v else s[t];
    r
  }

  /** `after` is `before` with `src` written over it from `off` on. */
  ghost predicate Overlaid(after: seq<int>, before: seq<int>, off: nat, src: seq<int>)
  {
    |after| == |before| && off + |src| <= |before| &&
    forall t :: 0 <= t < |after| ==>
      after[t] == (if off <= t < off + |src| then src[t - off] else before[t])
  }

  /** `a.subarray(lo, hi).fill(v)`. */
  method SubarrayFill(a: array<int>, lo: nat, hi: nat, v: int)
    modifies a
    ensures a[..] == Filled(old(a[..]), lo, hi, v)
  {
    var begin, end := Min(lo, a.Length), Min(hi, a.Length);
    forall t | begin <= t < end {
      a[t] := v;
    }
  }

  /** `a.set(src, off)`: the target must have room for all of `src`. */
  method Set(a: array<int>, src: seq<int>, off: nat)
    requires off + |src| <= a.Length
    modifies a
    ensures Overlaid(a[..], old(a[..]), off, src)
  {
    forall t | off <= t < off + |src| {
      a[t] := src[t - off];
    }
  }

  /** `buf` agrees with `full` below `k` and is still zero from `k` on: the
      state of a zero-filled buffer whose first `k` elements are written. */
  ghost predicate FilledUpTo(buf: seq<int>, full: seq<int>, k: nat)
  {
    |buf| == |full| && k <= |full| &&
    forall t :: 0 <= t < |buf| ==> buf[t] == (if t < k then full[t] else 0)
  }

  /** Writing the next block of `full` at `k` extends the written prefix by
      that block. */
  lemma WriteNext(after: seq<int>, before: seq<int>, full: seq<int>, k: nat, src: seq<int>)
    requires FilledUpTo(before, full, k)
    requires Overlaid(after, before, k, src)
    requires forall u :: 0 <= u < |src| ==> full[k + u] == src[u]
    ensures FilledUpTo(after, full, k + |src|)
  {
    forall t | 0 <= t < |after|
      ensures after[t] == (if t < k + |src| then full[t] else 0)
    {
      if k <= t < k + |src| {
        assert full[k + (t - k)] == src[t - k];
      }
    }
  }
}

/** The two range algorithms of the C++ standard library that the container is
    built from. Moving an element is modelled as copying it (moved-from values
    are not modelled), so std::move over a range is Copy and std::move_backward
    is CopyBackward. */
module Algorithms {

  /** std::copy(src + lo, src + hi, dst + d): element k of the range lands at
      dst[d + k], front to back. Front-to-back order also makes it a correct
      left shift inside one array (d <= lo), which is how Erase uses it. */
  method Copy<T>(src: array<T>, lo: nat, hi: nat, dst: array<T>, d: nat)
    requires lo <= hi <= src.Length
    requires d + (hi - lo) <= dst.Length
    requires src == dst ==> d <= lo
    modifies dst
    ensures dst[..] == old(dst[..d]) + old(src[lo..hi]) + old(dst[d + (hi - lo)..])
  {
    var i := 0;
    while i < hi - lo
      invariant 0 <= i <= hi - lo
      invariant forall k :: 0 <= k < d ==> dst[k] == old(dst[k])
      invariant forall k :: d <= k < d + i ==> dst[k] == old(src[lo + (k - d)])
      invariant forall k :: d + i <= k < dst.Length ==> dst[k] == old(dst[k])
      invariant src != dst ==> forall k :: 0 <= k < src.Length ==> src[k] == old(src[k])
    {
      dst[d + i] := src[lo + i];
      i := i + 1;
    }
    assert dst[..] == old(dst[..d]) + old(src[lo..hi]) + old(dst[d + (hi - lo)..]);
  }

  /** std::copy_backward(src + lo, src + hi, dst + e): the range is written so
      that its last element lands at dst[e - 1], back to front. Back-to-front
      order makes it a correct right shift inside one array (hi <= e). */
  method CopyBackward<T>(src: array<T>, lo: nat, hi: nat, dst: array<T>, e: nat)
    requires lo <= hi <= src.Length
    requires hi - lo <= e <= dst.Length
    requires src == dst ==> hi <= e
    modifies dst
    ensures dst[..] == old(dst[..e - (hi - lo)]) + old(src[lo..hi]) + old(dst[e..])
  {
    var i := 0;
    while i < hi - lo
      invariant 0 <= i <= hi - lo
      invariant forall k :: 0 <= k < e - i ==> dst[k] == old(dst[k])
      invariant forall k :: e - i <= k < e ==> dst[k] == old(src[hi - (e - k)])
      invariant forall k :: e <= k < dst.Length ==> dst[k] == old(dst[k])
      invariant src != dst ==> forall k :: 0 <= k < src.Length ==> src[k] == old(src[k])
    {
      dst[e - 1 - i] := src[hi - 1 - i];
      i := i + 1;
    }
    assert dst[..] == old(dst[..e - (hi - lo)]) + old(src[lo..hi]) + old(dst[e..]);
  }
}

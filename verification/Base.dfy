/**
 Values shared by every component: bytes, the 32-bit truncation the source
 applies with `as u32`, optional replies, and sums over sequences.
 */
module Base {

  type byte = x: int | 0 <= x < 256

  const U32: nat := 0x1_0000_0000

  datatype Option<+T> = None | Some(value: T)

  /** What `x as u32` keeps of an unsigned 64-bit value. */
  function AsU32(x: nat): (kept: nat) {
    x % U32
  }

  function Min(a: int, b: int): (m: int) {
    if a <= b then a else b
  }

  /** `x` moved into the interval [lo, hi]. */
  function Clamp(x: int, lo: int, hi: int): (c: int)
    requires lo <= hi
  {
    if x < lo then lo else if x > hi then hi else x
  }

  /** The sum of the first `k` elements. */
  function PrefixSum(s: seq<nat>, k: nat): (sum: nat)
    requires k <= |s|
  {
    if k == 0 then 0 else PrefixSum(s, k - 1) + s[k - 1]
  }

  function Sum(s: seq<nat>): (sum: nat) {
    PrefixSum(s, |s|)
  }

  lemma {:induction false} PrefixSumMonotone(s: seq<nat>, j: nat, k: nat)
    requires j <= k <= |s|
    ensures PrefixSum(s, j) <= PrefixSum(s, k)
    decreases k
  {
    if j == k {
    } else {
      PrefixSumMonotone(s, j, k - 1);
    }
  }

  lemma {:induction false} PrefixSumOfPrefix(s: seq<nat>, t: seq<nat>, k: nat)
    requires k <= |s| && k <= |t| && s[..k] == t[..k]
    ensures PrefixSum(s, k) == PrefixSum(t, k)
  {
    if k == 0 {
    } else {
      assert s[..k - 1] == s[..k][..k - 1] && t[..k - 1] == t[..k][..k - 1];
      assert s[k - 1] == s[..k][k - 1] && t[k - 1] == t[..k][k - 1];
      PrefixSumOfPrefix(s, t, k - 1);
    }
  }

  lemma SumAppend(s: seq<nat>, x: nat)
    ensures Sum([]) == 0 && Sum(s + [x]) == Sum(s) + x
  {
    PrefixSumOfPrefix(s, s + [x], |s|);
  }
}

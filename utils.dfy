/** The arithmetic helpers of src/utils/mod.rs. */
module Utils {
  import opened Common

  /** 2 to the power `k`. */
  function Pow2(k: nat): (p: nat)
    ensures p >= 1
  {
    if k == 0 then 1 else 2 * Pow2(k - 1)
  }

  /** The largest power of two a 64-bit `usize` holds. */
  const POW2_63: nat := 0x8000_0000_0000_0000

  lemma Pow2At63()
    ensures Pow2(63) == POW2_63
  {
    assert Pow2(7) == 128;
    Pow2Add(7, 7);
    Pow2Add(14, 14);
    Pow2Add(28, 28);
    Pow2Add(56, 7);
  }

  lemma {:induction false} Pow2Add(a: nat, b: nat)
    ensures Pow2(a + b) == Pow2(a) * Pow2(b)
  {
    if a > 0 {
      Pow2Add(a - 1, b);
    }
  }

  /** `next_pow2_number`: doubles `e` from 2 until it reaches `n`.  Doubling
      2^63 overflows `usize`, which panics in a debug build; that case is
      `None`.  Otherwise the result is the least power of two that is at
      least 2 and at least `n`. */
  method NextPow2Number(n: nat) returns (r: Option<nat>)
    requires n <= U64_MAX
    ensures r.None? <==> n > POW2_63
    ensures r.Some? ==> exists k :: 1 <= k <= 63 && r.value == Pow2(k) && (k == 1 || Pow2(k - 1) < n)
    ensures r.Some? ==> r.value >= n && r.value >= 2
    ensures n <= 2 ==> r == Some(2)
  {
    Pow2At63();
    var e := 2;
    ghost var k := 1;
    while e < n
      invariant 1 <= k <= 63 && e == Pow2(k)
      invariant k == 1 || Pow2(k - 1) < n
      decreases 63 - k
    {
      if e == POW2_63 {
        return None;
      }
      e := e * 2;
      k := k + 1;
    }
    Pow2Monotone(k, 63);
    return Some(e);
  }

  lemma {:induction false} Pow2Monotone(i: nat, j: nat)
    requires i <= j
    ensures Pow2(i) <= Pow2(j)
  {
    if i < j {
      Pow2Monotone(i, j - 1);
    }
  }

  /** `center_offset` (and its `f64` twin): the offset of item `idx` from the
      middle of `total` items spaced one apart. */
  function CenterOffset(idx: nat, total: nat): real
  {
    CenterOffsetF(idx as real, total as real)
  }

  /** `center_offset_f`: the same on float arguments. */
  function CenterOffsetF(idx: real, total: real): real
  {
    idx - (total - 1.0) / 2.0
  }

  /** The offsets are symmetric around the middle item, and consecutive
      items are one apart. */
  lemma CenterOffsetAntisymmetric(idx: nat, total: nat)
    requires idx < total
    ensures CenterOffset(idx, total) == -CenterOffset(total - 1 - idx, total)
    ensures idx + 1 < total ==> CenterOffset(idx + 1, total) == CenterOffset(idx, total) + 1.0
  {
  }

  /** The sum of the offsets of the first `m` items. */
  function OffsetSum(m: nat, total: nat): real
  {
    if m == 0 then 0.0 else OffsetSum(m - 1, total) + CenterOffset(m - 1, total)
  }

  /** The `m` first offsets add up to m(m - total)/2, so all `total` offsets
      add up to zero: the items are centred. */
  lemma {:induction false} OffsetSumClosedForm(m: nat, total: nat)
    ensures OffsetSum(m, total) == (m as real) * ((m as real) - (total as real)) / 2.0
  {
    if m > 0 {
      OffsetSumClosedForm(m - 1, total);
    }
  }

  lemma CenteredOffsetsSumToZero(total: nat)
    ensures OffsetSum(total, total) == 0.0
  {
    OffsetSumClosedForm(total, total);
  }
}

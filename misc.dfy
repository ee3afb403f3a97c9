/** Alignment helpers on 64-bit addresses. */
module Misc {
  import opened Arch

  /** Rounds `addr` up to a multiple of `align`; the source computes
      `addr + align - 1` in `u64`, so that sum must not overflow. */
  function AlignUp(addr: U64, align: U64): (r: U64)
    requires align > 0
    requires addr + align - 1 < 0x1_0000_0000_0000_0000
    ensures r % align == 0
    ensures addr <= r < addr + align
  {
    var q := (addr + align - 1) / align;
    MultipleBelow(addr + align - 1, align);
    q * align
  }

  /** Rounds `addr` down to a multiple of `align`. */
  function AlignDown(addr: U64, align: U64): (r: U64)
    requires align > 0
    ensures r % align == 0
    ensures addr - align < r <= addr
  {
    MultipleBelow(addr, align);
    (addr / align) * align
  }

  /** `AlignUp` with the page size. */
  function AlignUpPage(addr: U64): (r: U64)
    requires addr + PAGE_SIZE - 1 < 0x1_0000_0000_0000_0000
    ensures r == AlignUp(addr, PAGE_SIZE)
  {
    ((addr + PAGE_SIZE - 1) / PAGE_SIZE) * PAGE_SIZE
  }

  /** `AlignDown` with the page size. */
  function AlignDownPage(addr: U64): (r: U64)
    ensures r == AlignDown(addr, PAGE_SIZE)
  {
    (addr / PAGE_SIZE) * PAGE_SIZE
  }

  predicate IsAligned(addr: int, align: int)
    requires align > 0
  {
    addr % align == 0
  }

  /** An aligned value is a fixed point of both helpers. */
  lemma AlignedIsFixed(addr: U64, align: U64)
    requires align > 0 && addr + align - 1 < 0x1_0000_0000_0000_0000
    requires IsAligned(addr, align)
    ensures AlignUp(addr, align) == addr
    ensures AlignDown(addr, align) == addr
  {
    UniqueMultiple(AlignUp(addr, align), addr, align);
    UniqueMultiple(AlignDown(addr, align), addr, align);
  }

  /** Both helpers are idempotent. */
  lemma AlignIdempotent(addr: U64, align: U64)
    requires align > 0 && addr + align - 1 < 0x1_0000_0000_0000_0000
    requires AlignUp(addr, align) + align - 1 < 0x1_0000_0000_0000_0000
    ensures AlignUp(AlignUp(addr, align), align) == AlignUp(addr, align)
    ensures AlignDown(AlignDown(addr, align), align) == AlignDown(addr, align)
  {
    AlignedIsFixed(AlignUp(addr, align), align);
    AlignedIsFixed(AlignDown(addr, align), align);
  }

  /** Rounding down never exceeds rounding up, and the two meet exactly
      on aligned values. */
  lemma AlignDownUpOrder(addr: U64, align: U64)
    requires align > 0 && addr + align - 1 < 0x1_0000_0000_0000_0000
    ensures AlignDown(addr, align) <= AlignUp(addr, align)
    ensures AlignDown(addr, align) == AlignUp(addr, align) <==> IsAligned(addr, align)
  {
    if IsAligned(addr, align) {
      AlignedIsFixed(addr, align);
    } else {
      var d, u := AlignDown(addr, align), AlignUp(addr, align);
      assert d < addr < u;
    }
  }

  /** `(x / k) * k` is the largest multiple of `k` not above `x`. */
  lemma MultipleBelow(x: nat, k: nat)
    requires k > 0
    ensures 0 <= (x / k) * k <= x < (x / k) * k + k
    ensures ((x / k) * k) % k == 0
  {
    MulMod(x / k, k);
  }

  lemma MulMod(q: nat, k: nat)
    requires k > 0
    ensures (q * k) % k == 0
  {
    var m := q * k;
    var d := q - m / k;
    assert d * k == m % k by {
      assert m == (m / k) * k + m % k;
    }
    MulBounds(d, k);
  }

  lemma MulBounds(d: int, k: int)
    requires k > 0
    ensures d >= 1 ==> d * k >= k
    ensures d <= -1 ==> d * k <= -k
  {
  }

  /** Two multiples of `k` closer than `k` to each other are equal. */
  lemma UniqueMultiple(x: int, y: int, k: int)
    requires k > 0 && x % k == 0 && y % k == 0
    requires y - k < x < y + k
    ensures x == y
  {
    var d := x / k - y / k;
    assert x - y == d * k;
    MulBounds(d, k);
  }
}

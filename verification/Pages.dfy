/** Page arithmetic on 64-bit addresses. */
module Pages {

  const PAGE_SIZE: nat := 4096
  const ADDRESS_LIMIT: nat := 0x1_0000_0000_0000_0000

  type Byte = b: nat | b < 256

  predicate IsPage(a: int) {
    a % PAGE_SIZE == 0
  }

  function AlignDownToPage(a: nat): (r: nat)
    ensures IsPage(r) && r <= a < r + PAGE_SIZE
  {
    a - a % PAGE_SIZE
  }

  function RoundUp(n: nat, unit: nat): (r: nat)
    requires unit > 0
    ensures n <= r < n + unit
  {
    var top := n + (unit - 1);
    top - top % unit
  }

  /** The addition wraps at 64 bits, as the source's does. */
  function RoundUpToPage(size: nat): (r: nat)
    requires size < ADDRESS_LIMIT
    ensures IsPage(r)
    ensures size + PAGE_SIZE <= ADDRESS_LIMIT ==> size <= r < size + PAGE_SIZE
    ensures size + PAGE_SIZE > ADDRESS_LIMIT ==> r == 0
  {
    AlignDownToPage((size + (PAGE_SIZE - 1)) % ADDRESS_LIMIT)
  }

  /** The pages that start in [base, limit). */
  ghost function PagesOf(base: nat, limit: nat): set<nat> {
    set p | base <= p < limit && IsPage(p)
  }

  /** Rounding down does not cross a page boundary. */
  lemma AlignDownStaysAbove(base: nat, a: nat)
    requires IsPage(base) && base <= a
    ensures base <= AlignDownToPage(a)
  {
    assert base / PAGE_SIZE <= a / PAGE_SIZE;
  }

  lemma AlignDownGrows(a: nat, b: nat)
    requires a <= b
    ensures AlignDownToPage(a) <= AlignDownToPage(b)
  {
    AlignDownStaysAbove(AlignDownToPage(a), b);
  }

  /** An address is below a page boundary if its page is. */
  lemma PageInside(limit: nat, a: nat)
    requires IsPage(limit) && AlignDownToPage(a) < limit
    ensures a < limit
  {
    assert AlignDownToPage(a) / PAGE_SIZE < limit / PAGE_SIZE;
  }
}

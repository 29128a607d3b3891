/** Page arithmetic of freestanding/efi/core.h. */
module EfiCore {
  import opened Bits

  const PAGE_SIZE: nat := 4096

  /** `NUM_PAGES`, in 64-bit arithmetic. */
  function NumPages(y: u64): u64 { (y + PAGE_SIZE - 1) % U64_SIZE / PAGE_SIZE }

  /** The page count is the least that holds the bytes, exactly when rounding up does not wrap (or
      nothing is asked for). */
  lemma NumPagesExactly(y: u64)
    ensures y <= NumPages(y) * PAGE_SIZE < y + PAGE_SIZE <==> y + PAGE_SIZE <= U64_SIZE
  {
    if y + PAGE_SIZE <= U64_SIZE {
      assert (y + PAGE_SIZE - 1) % U64_SIZE == y + PAGE_SIZE - 1;
    } else {
      assert (y + PAGE_SIZE - 1) % U64_SIZE == y + PAGE_SIZE - 1 - U64_SIZE;
    }
  }
}

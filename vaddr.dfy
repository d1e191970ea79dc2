/** The x86 virtual-address layout the user-program loader relies on: 4 kB
    pages, and user memory below PHYS_BASE (Pintos's threads/vaddr.h, which
    is not part of this model; the values are the ones it defines). */
module Vaddr {
  import opened Bytes

  const PGBITS: nat := 12
  const PGSIZE: nat := 4096
  /** `PGMASK` selects the offset bits of an address; `x & PGMASK` is `x % PGSIZE`. */
  const PGMASK: nat := PGSIZE - 1
  /** Base of kernel virtual memory; user addresses lie strictly below it. */
  const PHYS_BASE: nat := 0xc000_0000
  /** The page `setup_stack` maps at the top of user memory for the initial stack. */
  const STACK_PAGE: nat := PHYS_BASE - PGSIZE

  /** `pg_ofs`: offset of an address within its page. */
  function PgOfs(va: nat): (r: nat)
    ensures r < PGSIZE && r <= va
    ensures (va - r) % PGSIZE == 0
  {
    va % PGSIZE
  }

  /** `pg_round_down`, i.e. `va & ~PGMASK`: the base of the page holding va. */
  function PgRoundDown(va: nat): (r: nat)
    ensures r <= va < r + PGSIZE
    ensures r % PGSIZE == 0
  {
    va - va % PGSIZE
  }

  /** `is_user_vaddr`. */
  predicate IsUserVaddr(va: nat) {
    va < PHYS_BASE
  }

  /** `ROUND_UP (x, PGSIZE)` evaluated in 32-bit unsigned arithmetic: the
      addition of PGSIZE - 1 wraps, the product does not (it is at most x + PGSIZE - 1
      taken modulo 2^32, rounded down). */
  function RoundUpPage32(x: u32): (r: u32)
    ensures x + PGSIZE - 1 < U32_LIMIT ==> x <= r < x + PGSIZE && r % PGSIZE == 0
  {
    Add32(x, PGSIZE - 1) / PGSIZE * PGSIZE
  }
}

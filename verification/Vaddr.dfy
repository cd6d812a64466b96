/** threads/vaddr.h: pages and the two halves of the address space. */
module Vaddr {

  const PGSIZE := 4096

  /** User addresses are below this. */
  const PHYS_BASE := 0xc000_0000
}

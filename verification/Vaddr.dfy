/** The layout of memory (threads/vaddr.h), in bytes. */
module Vaddr {
  const PGSIZE: nat := 4096
  const PHYS_BASE: nat := 0xc000_0000
}

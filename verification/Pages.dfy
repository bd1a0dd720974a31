/** Pages and the address space (threads/vaddr.h, threads/loader.h). */
module Pages {

  const PGSIZE := 4096
  const PHYS_BASE := 0xc000_0000
}

/** What the components share: 32-bit words, the kernel heap's address range (src/kernel/mm/vm.h) and
    optional values. */
module Machine {

  datatype Option<+T> = None | Some(value: T)

  const WORD_LIMIT := 0x1_0000_0000
  const KERNEL_HEAP_START := 0x40_0000
  const KERNEL_HEAP_END := 0x80_0000
}

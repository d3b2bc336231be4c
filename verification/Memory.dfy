/**
 * Addresses and memory (ymirc/mem.h, ymirc/mem.c). The static flag that says
 * whether the kernel already runs on its own page tables is a parameter of the
 * two address conversions.
 */
module Memory {
  import opened Bits

  const PAGE_SIZE: nat := 4096
  const PAGE_SIZE_2MB: nat := 0x20_0000
  const DIRECT_MAP_BASE: nat := 0xFFFF_8880_0000_0000
  const DIRECT_MAP_SIZE: nat := 0x80_0000_0000
  const KERNEL_BASE: nat := 0xFFFF_FFFF_8000_0000

  /** Unsigned 64-bit subtraction. */
  function Sub64(a: nat, b: nat): nat
    requires a < WORD_LIMIT && b < WORD_LIMIT
  {
    if a >= b then a - b else a + WORD_LIMIT - b
  }

  function Virt2Phys(reconstructed: bool, addr: nat): nat
    requires addr < WORD_LIMIT
  {
    if !reconstructed then addr
    else if addr < KERNEL_BASE then Sub64(addr, DIRECT_MAP_BASE)
    else Sub64(addr, KERNEL_BASE)
  }

  function Phys2Virt(reconstructed: bool, addr: nat): nat
    requires addr < WORD_LIMIT
  {
    if !reconstructed then addr else (addr + DIRECT_MAP_BASE) % WORD_LIMIT
  }

  /**
   * A pointer made from a physical address in the direct map leads back to it
   * exactly when the two conversions happen on the same side of the switch to
   * the reconstructed mapping.
   */
  lemma ConversionRoundTrip(made: bool, used: bool, phys: nat)
    requires phys < DIRECT_MAP_SIZE
    ensures Phys2Virt(made, phys) < WORD_LIMIT
    ensures Virt2Phys(used, Phys2Virt(made, phys)) == phys <==> made == used
    ensures phys != 0 ==> Phys2Virt(made, phys) != 0
  {
  }

  // ---------------------------------------------------------------- physical memory

  /** Physical memory by 64-bit words: word `k` occupies the bytes 8k .. 8k+7. */
  type Words = map<nat, Word>

  function At(m: Words, k: nat): Word {
    if k in m then m[k] else Zero()
  }

  /** Word i of a frame. */
  function InFrame(m: Words, f: nat, i: nat): Word {
    At(m, 512 * f + i)
  }

  /** Two memories agree on every word of a frame. */
  ghost predicate SameFrame(m: Words, n: Words, f: nat) {
    forall i | 0 <= i < 512 :: InFrame(n, f, i) == InFrame(m, f, i)
  }

  /** From m to n, only words in the given frames have changed. */
  ghost predicate OnlyFrames(m: Words, n: Words, frames: set<nat>) {
    forall k: nat | k / 512 !in frames :: At(n, k) == At(m, k)
  }

  lemma FramesKept(m: Words, n: Words, frames: set<nat>)
    requires OnlyFrames(m, n, frames)
    ensures forall f: nat | f !in frames :: SameFrame(m, n, f)
  {
    forall f: nat, i {:trigger InFrame(n, f, i)} | f !in frames && 0 <= i < 512
      ensures InFrame(n, f, i) == InFrame(m, f, i)
    {
      assert (512 * f + i) / 512 == f;
    }
  }

  class PhysicalMemory {
    var words: Words

    constructor (contents: Words)
      ensures words == contents
    {
      words := contents;
    }

    method Store(k: nat, w: Word)
      modifies this
      ensures words == old(words)[k := w]
    {
      words := words[k := w];
    }
  }
}

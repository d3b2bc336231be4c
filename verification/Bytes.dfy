/**
 * Physical memory by bytes, and the byte loops of ymirc/mem.c. Pointers into the
 * direct map stand for the physical addresses they lead to.
 */
module Bytes {
  import opened Bits
  import opened Memory

  type Octet = b: seq<bool> | |b| == 8 witness seq(8, _ => false)

  /** The unsigned char of a number. */
  function OctetOf(v: nat): Octet {
    BitsOf(v, 8)
  }

  /** Byte a: bits 8i .. 8i+7 of its word, little-endian. */
  function ByteAt(m: Words, a: nat): Octet {
    At(m, a / 8)[8 * (a % 8)..8 * (a % 8) + 8]
  }

  function WithByte(w: Word, i: nat, b: Octet): Word
    requires i < 8
  {
    w[..8 * i] + b + w[8 * i + 8..]
  }

  lemma ByteReplaced(w: Word, i: nat, b: Octet, j: nat)
    requires i < 8 && j < 8
    ensures WithByte(w, i, b)[8 * j..8 * j + 8] == if i == j then b else w[8 * j..8 * j + 8]
  {
  }

  lemma ByteStored(m: Words, a: nat, b: Octet, c: nat)
    ensures ByteAt(m[a / 8 := WithByte(At(m, a / 8), a % 8, b)], c) == if c == a then b else ByteAt(m, c)
  {
    hide WithByte;
    if c / 8 == a / 8 {
      ByteReplaced(At(m, a / 8), a % 8, b, c % 8);
    }
  }

  /** Bytes outside a range keep their value. */
  ghost predicate OnlyBytes(m: Words, n: Words, lo: nat, hi: nat) {
    forall c: nat | !(lo <= c < hi) :: ByteAt(n, c) == ByteAt(m, c)
  }

  /** Bytes outside the changed frames keep their value. */
  lemma ByteOfKeptFrame(m: Words, n: Words, frames: set<nat>, a: nat)
    requires OnlyFrames(m, n, frames) && a / PAGE_SIZE !in frames
    ensures ByteAt(n, a) == ByteAt(m, a)
  {
    assert a / 8 / 512 == a / PAGE_SIZE;
  }

  /** A word is its eight bytes. */
  lemma WordOfBytes(m: Words, n: Words, k: nat)
    requires forall c: nat | 8 * k <= c < 8 * k + 8 :: ByteAt(n, c) == ByteAt(m, c)
    ensures At(n, k) == At(m, k)
  {
    hide ByteAt, At;
    forall i | 0 <= i < 64
      ensures At(n, k)[i] == At(m, k)[i]
    {
      BitOfByte(m, k, i);
      BitOfByte(n, k, i);
    }
  }

  lemma BitOfByte(m: Words, k: nat, i: nat)
    requires i < 64
    ensures At(m, k)[i] == ByteAt(m, 8 * k + i / 8)[i % 8]
  {
    var c := 8 * k + i / 8;
    assert c / 8 == k && c % 8 == i / 8;
  }

  method StoreByte(mem: PhysicalMemory, a: nat, b: Octet)
    modifies mem
    ensures ByteAt(mem.words, a) == b && OnlyBytes(old(mem.words), mem.words, a, a + 1)
  {
    hide ByteAt;
    ghost var before := mem.words;
    mem.Store(a / 8, WithByte(At(mem.words, a / 8), a % 8, b));
    forall c: nat
      ensures ByteAt(mem.words, c) == if c == a then b else ByteAt(before, c)
    {
      ByteStored(before, a, b, c);
    }
  }

  /** memcpy; C leaves overlapping buffers undefined. */
  method Memcpy(mem: PhysicalMemory, dest: nat, src: nat, n: nat)
    requires dest + n <= src || src + n <= dest || n == 0
    modifies mem
    ensures forall c | dest <= c < dest + n :: ByteAt(mem.words, c) == ByteAt(old(mem.words), src + (c - dest))
    ensures OnlyBytes(old(mem.words), mem.words, dest, dest + n)
  {
    hide ByteAt;
    for i := 0 to n
      invariant forall c | dest <= c < dest + i :: ByteAt(mem.words, c) == ByteAt(old(mem.words), src + (c - dest))
      invariant OnlyBytes(old(mem.words), mem.words, dest, dest + i)
    {
      StoreByte(mem, dest + i, ByteAt(mem.words, src + i));
    }
  }

  /** memcpy from an object outside the modelled memory. */
  method CopyObject(mem: PhysicalMemory, dest: nat, bytes: seq<Octet>)
    modifies mem
    ensures forall c | dest <= c < dest + |bytes| :: ByteAt(mem.words, c) == bytes[c - dest]
    ensures OnlyBytes(old(mem.words), mem.words, dest, dest + |bytes|)
  {
    hide ByteAt;
    for i := 0 to |bytes|
      invariant forall c | dest <= c < dest + i :: ByteAt(mem.words, c) == bytes[c - dest]
      invariant OnlyBytes(old(mem.words), mem.words, dest, dest + i)
    {
      StoreByte(mem, dest + i, bytes[i]);
    }
  }

  method Memset(mem: PhysicalMemory, dest: nat, b: Octet, n: nat)
    modifies mem
    ensures forall c | dest <= c < dest + n :: ByteAt(mem.words, c) == b
    ensures OnlyBytes(old(mem.words), mem.words, dest, dest + n)
  {
    hide ByteAt;
    for i := 0 to n
      invariant forall c | dest <= c < dest + i :: ByteAt(mem.words, c) == b
      invariant OnlyBytes(old(mem.words), mem.words, dest, dest + i)
    {
      StoreByte(mem, dest + i, b);
    }
  }
}

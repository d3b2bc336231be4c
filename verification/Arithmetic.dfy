/**
 * Quotients and remainders by the sizes that addresses are split at. Each lemma
 * takes the decomposition as given, so that a proof about addresses names it
 * once and never leaves it to be searched for.
 */
module Arithmetic {

  lemma ByPage(x: int, q: int, r: int)
    requires x == 4096 * q + r && 0 <= r < 4096
    ensures x / 4096 == q && x % 4096 == r
  {
  }

  /** Of word numbers: 512 words make a frame. */
  lemma ByFrame(x: int, q: int, r: int)
    requires x == 512 * q + r && 0 <= r < 512
    ensures x / 512 == q && x % 512 == r
  {
  }

  lemma ByAddresses(x: int, q: int, r: int)
    requires x == 0x1_0000_0000_0000 * q + r && 0 <= r < 0x1_0000_0000_0000
    ensures x / 0x1_0000_0000_0000 == q && x % 0x1_0000_0000_0000 == r
  {
  }

  /** An offset that is a multiple of 32 makes the whole address one. */
  lemma InPageBy32(p: nat, o: nat)
    requires o % 32 == 0
    ensures (4096 * p + o) % 32 == 0
  {
    assert 4096 * p + o == 32 * (128 * p + o / 32);
  }

  /** The frame of a 2MiB page, cut back to large pages, is the page again. */
  lemma LargePageFrame(x: nat)
    requires x % 0x20_0000 == 0
    ensures x / 4096 / 512 * 0x20_0000 == x && x % 4096 == 0
  {
    var q := x / 0x20_0000;
    ByPage(x, 512 * q, 0);
    assert 512 * q / 512 == q;
  }

  /** Cutting an address to 48 bits keeps its offset into the page. */
  lemma OffsetIn48Bits(x: nat)
    ensures x % 0x1_0000_0000_0000 % 4096 == x % 4096
  {
    var q, r := x / 0x1_0000_0000_0000, x % 0x1_0000_0000_0000;
    ByPage(x, 0x10_0000_0000 * q + r / 4096, r % 4096);
  }

  /** The start of an address's page, cut to 48 bits. */
  lemma PageStartIn48Bits(x: nat)
    ensures (x - x % 4096) % 4096 == 0
    ensures (x - x % 4096) % 0x1_0000_0000_0000 == x % 0x1_0000_0000_0000 - x % 4096
  {
    var q, r, t := x / 0x1_0000_0000_0000, x % 0x1_0000_0000_0000, x % 4096;
    OffsetIn48Bits(x);
    ByPage(x - t, x / 4096, 0);
    assert r >= t;
    ByAddresses(x - t, q, r - t);
  }

  lemma AddWithin48Bits(x: nat, d: nat)
    requires x % 0x1_0000_0000_0000 + d < 0x1_0000_0000_0000
    ensures (x + d) % 0x1_0000_0000_0000 == x % 0x1_0000_0000_0000 + d
  {
    ByAddresses(x + d, x / 0x1_0000_0000_0000, x % 0x1_0000_0000_0000 + d);
  }

  /** Adding to an address: the pages passed and the offset reached. */
  lemma AddInPage(s: nat, d: nat)
    ensures (s + d) / 4096 == s / 4096 + (s % 4096 + d) / 4096
    ensures (s + d) % 4096 == (s % 4096 + d) % 4096
  {
    ByPage(s + d, s / 4096 + (s % 4096 + d) / 4096, (s % 4096 + d) % 4096);
  }

  /** Adding whole pages. */
  lemma AddPages(s: nat, n: nat)
    ensures (s + 4096 * n) / 4096 == s / 4096 + n && (s + 4096 * n) % 4096 == s % 4096
  {
    ByPage(s + 4096 * n, s / 4096 + n, s % 4096);
  }
}

/**
 * The control block of the virtual CPU (ymirc/arch/x86/svm_vmcb.h) as
 * svm_vcpu_setup_guest_state and svm_vcpu_set_npt fill it in: one page of memory,
 * by 64-bit words. Segment registers are not part of this.
 */
module Vmcb {
  import opened Bits
  import opened Memory
  import opened Bytes

  /** The words of a frame. */
  function FrameWords(m: Words, f: nat): (ws: seq<Word>)
    ensures |ws| == 512
  {
    seq<Word>(512, k requires 0 <= k < 512 => InFrame(m, f, k))
  }

  /** Bit n of the field at byte `offset`, which lies in word offset / 8. */
  function WithBit(ws: seq<Word>, offset: nat, n: nat): seq<Word>
    requires |ws| == 512 && offset < 0x1000 && 8 * (offset % 8) + n < 64
  {
    ws[offset / 8 := ws[offset / 8][8 * (offset % 8) + n := true]]
  }

  method StoreWord(mem: PhysicalMemory, f: nat, k: nat, w: Word)
    requires k < 512
    modifies mem
    ensures FrameWords(mem.words, f) == FrameWords(old(mem.words), f)[k := w]
    ensures OnlyFrames(old(mem.words), mem.words, {f})
  {
    mem.Store(512 * f + k, w);
    assert (512 * f + k) / 512 == f;
  }

  /** A one-bit field set to 1. */
  method StoreBit(mem: PhysicalMemory, f: nat, offset: nat, n: nat)
    requires offset < 0x1000 && 8 * (offset % 8) + n < 64
    modifies mem
    ensures FrameWords(mem.words, f) == WithBit(FrameWords(old(mem.words), f), offset, n)
    ensures OnlyFrames(old(mem.words), mem.words, {f})
  {
    hide FrameWords;
    var w := InFrame(mem.words, f, offset / 8);
    assert w == FrameWords(mem.words, f)[offset / 8] by { WordOfFrame(mem.words, f, offset / 8); }
    StoreWord(mem, f, offset / 8, w[8 * (offset % 8) + n := true]);
  }

  lemma WordOfFrame(m: Words, f: nat, k: nat)
    requires k < 512
    ensures FrameWords(m, f)[k] == InFrame(m, f, k)
  {
  }

  /** Frames that are not written keep their words. */
  lemma WordsKept(m: Words, n: Words, frames: set<nat>, f: nat)
    requires OnlyFrames(m, n, frames) && f !in frames
    ensures FrameWords(n, f) == FrameWords(m, f)
  {
    FramesKept(m, n, frames);
  }

  /** A frame whose bytes are 0. */
  lemma ClearedWords(m: Words, f: nat)
    requires forall c | f * PAGE_SIZE <= c < f * PAGE_SIZE + PAGE_SIZE :: ByteAt(m, c) == OctetOf(0)
    ensures FrameWords(m, f) == Blank()
  {
    hide ByteAt, OctetOf;
    forall k | 0 <= k < 512
      ensures InFrame(m, f, k) == Zero()
    {
      forall i | 0 <= i < 64
        ensures !InFrame(m, f, k)[i]
      {
        BitOfByte(m, 512 * f + k, i);
        assert f * PAGE_SIZE <= 8 * (512 * f + k) + i / 8 < f * PAGE_SIZE + PAGE_SIZE;
        ZeroOctet(i % 8);
      }
    }
  }

  lemma ZeroOctet(i: nat)
    requires i < 8
    ensures !OctetOf(0)[i]
  {
    ZeroBits(8, i);
  }

  function Blank(): (ws: seq<Word>)
    ensures |ws| == 512
  {
    seq<Word>(512, _ => Zero())
  }

  // ---------------------------------------------------------------- setup_vmcb

  const INTERCEPTS := 0x00C
  const MORE_INTERCEPTS := 0x010
  const IOPM_BASE_PA := 0x040
  const MSRPM_BASE_PA := 0x048
  const GUEST_ASID := 0x058
  const V_INTR := 0x060
  const NP_ENABLE := 0x090
  const N_CR3 := 0x0B0
  const SAVED_EFER := 0x4D0
  const SAVED_CR0 := 0x558
  const SAVED_RIP := 0x578

  /** What setup_vmcb stores before the permission maps, segment registers aside. */
  ghost function Configured(asid: nat, rip: nat): (ws: seq<Word>)
    ensures |ws| == 512
  {
    var control := WithBit(WithBit(WithBit(Blank(), INTERCEPTS, 0), V_INTR, 20), V_INTR, 24);
    var intercepts := WithBit(WithBit(WithBit(WithBit(control, INTERCEPTS, 18), INTERCEPTS, 24), MORE_INTERCEPTS, 0),
                              MORE_INTERCEPTS, 1);
    var enabled := WithBit(intercepts[GUEST_ASID / 8 := ToWord(asid)], NP_ENABLE, 0);
    var efer := WithBit(enabled, SAVED_EFER, 12);
    var cr0 := WithBit(WithBit(WithBit(efer, SAVED_CR0, 0), SAVED_CR0, 5), SAVED_CR0, 4);
    cr0[SAVED_RIP / 8 := ToWord(rip)]
  }

  /** setup_vmcb, up to the permission maps. */
  method ConfigureVmcb(mem: PhysicalMemory, f: nat, asid: nat, rip: nat)
    requires FrameWords(mem.words, f) == Blank()
    modifies mem
    ensures FrameWords(mem.words, f) == Configured(asid, rip)
    ensures OnlyFrames(old(mem.words), mem.words, {f})
  {
    hide FrameWords, WithBit, ToWord, At;
    StoreBit(mem, f, INTERCEPTS, 0);
    StoreBit(mem, f, V_INTR, 20);
    StoreBit(mem, f, V_INTR, 24);
    StoreBit(mem, f, INTERCEPTS, 18);
    StoreBit(mem, f, INTERCEPTS, 24);
    StoreBit(mem, f, MORE_INTERCEPTS, 0);
    StoreBit(mem, f, MORE_INTERCEPTS, 1);
    StoreWord(mem, f, GUEST_ASID / 8, ToWord(asid));
    StoreBit(mem, f, NP_ENABLE, 0);
    StoreBit(mem, f, SAVED_EFER, 12);
    StoreBit(mem, f, SAVED_CR0, 0);
    StoreBit(mem, f, SAVED_CR0, 5);
    StoreBit(mem, f, SAVED_CR0, 4);
    StoreWord(mem, f, SAVED_RIP / 8, ToWord(rip));
  }

  /** The map's address, and the intercept that makes the processor look at it. */
  method PointToMap(mem: PhysicalMemory, f: nat, field: nat, map_: nat, intercept: nat)
    requires field < 0x1000 && intercept < 32
    modifies mem
    ensures FrameWords(mem.words, f) == WithMap(FrameWords(old(mem.words), f), field, map_, intercept)
    ensures OnlyFrames(old(mem.words), mem.words, {f})
  {
    hide FrameWords, WithBit, ToWord, At;
    StoreWord(mem, f, field / 8, ToWord(map_));
    StoreBit(mem, f, INTERCEPTS, intercept);
  }

  function WithMap(ws: seq<Word>, field: nat, base: nat, intercept: nat): (r: seq<Word>)
    requires |ws| == 512 && field < 0x1000 && intercept < 32
    ensures |r| == 512
  {
    WithBit(ws[field / 8 := ToWord(base)], INTERCEPTS, intercept)
  }

  // ---------------------------------------------------------------- what the processor finds

  /** Exactly these bits of the word at a byte offset are set. */
  ghost predicate Flagged(ws: seq<Word>, offset: nat, bits: set<nat>)
    requires |ws| == 512 && offset < 0x1000
  {
    forall i: nat | i < 64 :: ws[offset / 8][i] <==> i in bits
  }

  ghost predicate Holds(ws: seq<Word>, offset: nat, value: nat)
    requires |ws| == 512 && offset < 0x1000
  {
    Value(ws[offset / 8]) == value
  }

  /**
   * The block in full: external interrupts, CPUID, HLT, ports, MSRs, VMRUN and
   * VMMCALL are intercepted, virtual interrupt masking and nested paging are on,
   * the two maps and the nested tables are the given ones, the guest starts at
   * 1MiB in protected mode without paging, and all words but those of the segment
   * registers are otherwise 0.
   */
  ghost predicate Controls(ws: seq<Word>, iopm: nat, msrpm: nat, nCr3: nat) {
    && |ws| == 512
    && Flagged(ws, 0x008, {32 + 0, 32 + 18, 32 + 24, 32 + 27, 32 + 28}) && Flagged(ws, 0x010, {0, 1})
    && Holds(ws, 0x040, iopm) && Holds(ws, 0x048, msrpm) && Holds(ws, 0x0B0, nCr3)
    && Holds(ws, 0x058, 1) && Flagged(ws, 0x060, {20, 24}) && Flagged(ws, 0x090, {0})
    && Flagged(ws, 0x4D0, {12}) && Flagged(ws, 0x558, {0, 4, 5}) && Holds(ws, 0x578, 0x10_0000)
    && (forall k | 0 <= k < 512 && !Named(k) && !(0x400 / 8 <= k < 0x460 / 8) :: ws[k] == Zero())
  }

  predicate Named(k: nat) {
    k in {1, 2, 8, 9, 11, 12, 18, 22, 154, 171, 175}
  }

  /** One word through a chain of stores. */
  lemma ConfiguredWords(asid: nat, rip: nat)
    ensures var ws := Configured(asid, rip);
            && ws[1] == Zero()[32 := true][50 := true][56 := true] && ws[2] == Zero()[0 := true][1 := true]
            && ws[11] == ToWord(asid) && ws[12] == Zero()[20 := true][24 := true] && ws[18] == Zero()[0 := true]
            && ws[154] == Zero()[12 := true] && ws[171] == Zero()[0 := true][5 := true][4 := true]
            && ws[175] == ToWord(rip)
    ensures forall k | 0 <= k < 512 && k !in {1, 2, 11, 12, 18, 154, 171, 175} :: Configured(asid, rip)[k] == Zero()
  {
    hide ToWord;
  }

  /** What vm_init leaves is in order, with no nested tables yet. */
  lemma ControlsReady(iopm: nat, msrpm: nat)
    requires iopm < WORD_LIMIT && msrpm < WORD_LIMIT
    ensures Controls(WithMap(WithMap(Configured(1, 0x10_0000), MSRPM_BASE_PA, msrpm, 28), IOPM_BASE_PA, iopm, 27),
                     iopm, msrpm, 0)
  {
    hide ToWord, Value, Configured;
    ConfiguredWords(1, 0x10_0000);
    WordRoundTrip(1);
    WordRoundTrip(0x10_0000);
    WordRoundTrip(iopm);
    WordRoundTrip(msrpm);
    ZeroIsZero();
  }

  lemma ZeroIsZero()
    ensures Value(Zero()) == 0
  {
    hide Value;
    assert ToWord(0) == Zero() by { ZeroWord(); }
    WordRoundTrip(0);
  }

  lemma ZeroWord()
    ensures ToWord(0) == Zero()
  {
    hide BitsOf;
    forall i | 0 <= i < 64
      ensures !ToWord(0)[i]
    {
      ZeroBits(64, i);
    }
  }

  /** svm_vcpu_set_npt. */
  lemma TablesSet(ws: seq<Word>, iopm: nat, msrpm: nat, nCr3: nat)
    requires Controls(ws, iopm, msrpm, 0) && nCr3 < WORD_LIMIT
    ensures Controls(ws[N_CR3 / 8 := ToWord(nCr3)], iopm, msrpm, nCr3)
  {
    hide ToWord, Value;
    WordRoundTrip(nCr3);
  }
}

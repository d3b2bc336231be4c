/**
 * RDMSR and WRMSR exits (ymirc/arch/x86/svm_msr.c). Of the registers a write
 * stores, EFER is the one other exits read back.
 */
module SvmMsr {
  import opened VcpuState
  import opened Wrappers

  const MSR_APIC_BASE := 0x1B
  const MSR_EFER := 0xC000_0080

  const HALF: nat := 0x1_0000_0000

  /** The registers whose writes are stored, or passed to the processor, and not read back here. */
  predicate IsStoredMsr(rcx: nat) {
    || 0x174 <= rcx <= 0x176 || 0xC000_0081 <= rcx <= 0xC000_0084 || 0xC000_0100 <= rcx <= 0xC000_0103
  }

  /** The value a WRMSR carries: the low halves of RDX and RAX. */
  function WrittenValue(rdx: nat, rax: nat): nat {
    rdx % HALF * HALF + rax % HALF
  }

  /** EFER.LME is bit 8, EFER.NXE bit 11. */
  predicate EnablesLongModeOrNx(efer: nat) {
    efer / 0x100 % 2 == 1 || efer / 0x800 % 2 == 1
  }

  /** set_ret_val: the halves of a value, without touching the high halves of the registers. */
  function ReadResult(s: Vcpu, val: nat): Vcpu {
    s.(rdx := WithLowHalf(s.rdx, val / HALF), rax := WithLowHalf(s.rax, val))
  }

  function ReadMsr(s: Vcpu): Option<Vcpu> {
    if s.rcx == MSR_APIC_BASE then Some(ReadResult(s, 0xFFFF_FFFF_FFFF_FFFF))
    else if s.rcx == MSR_EFER then Some(ReadResult(s, s.efer))
    else None
  }

  function WriteMsr(s: Vcpu): Option<Vcpu> {
    var value := WrittenValue(s.rdx, s.rax);
    if s.rcx == MSR_EFER then
      Some(s.(efer := value, tlbControl := if EnablesLongModeOrNx(value) then 3 else s.tlbControl))
    else if IsStoredMsr(s.rcx) then Some(s)
    else None
  }

  /** EXITINFO1 of an MSR exit says 0 for RDMSR and 1 for WRMSR. */
  function MsrExit(s: Vcpu, exitinfo1: nat): Option<Vcpu> {
    if exitinfo1 == 0 then ReadMsr(s) else if exitinfo1 == 1 then WriteMsr(s) else None
  }

  method SetReturnValue(v: SvmVcpu, val: nat)
    modifies v`rdx, v`rax
    ensures v.State() == ReadResult(old(v.State()), val)
  {
    v.rdx := WithLowHalf(v.rdx, val / HALF);
    v.rax := WithLowHalf(v.rax, val);
  }

  method HandleRdmsr(v: SvmVcpu) returns (aborted: bool)
    modifies v`rdx, v`rax
    ensures aborted <==> ReadMsr(old(v.State())) == None
    ensures v.State() == if aborted then old(v.State()) else ReadMsr(old(v.State())).value
  {
    aborted := false;
    if v.rcx == MSR_APIC_BASE {
      SetReturnValue(v, 0xFFFF_FFFF_FFFF_FFFF);
    } else if v.rcx == MSR_EFER {
      SetReturnValue(v, v.efer);
    } else {
      aborted := true;
    }
  }

  method HandleWrmsr(v: SvmVcpu) returns (aborted: bool)
    modifies v`efer, v`tlbControl
    ensures aborted <==> WriteMsr(old(v.State())) == None
    ensures v.State() == if aborted then old(v.State()) else WriteMsr(old(v.State())).value
  {
    aborted := false;
    var value := WrittenValue(v.rdx, v.rax);
    if v.rcx == MSR_EFER {
      if EnablesLongModeOrNx(value) {
        v.tlbControl := 3;
      }
      v.efer := value;
    } else if !IsStoredMsr(v.rcx) {
      aborted := true;
    }
  }

  method HandleMsrExit(v: SvmVcpu, exitinfo1: nat) returns (aborted: bool)
    modifies v`rdx, v`rax, v`efer, v`tlbControl
    ensures aborted <==> MsrExit(old(v.State()), exitinfo1) == None
    ensures v.State() == if aborted then old(v.State()) else MsrExit(old(v.State()), exitinfo1).value
  {
    if exitinfo1 == 0 {
      aborted := HandleRdmsr(v);
    } else if exitinfo1 == 1 {
      aborted := HandleWrmsr(v);
    } else {
      aborted := true;
    }
  }

  /** Reading EFER back yields, in the low halves, exactly the halves that were written. */
  lemma ReadsBackWhatWasWritten(w: Vcpu, r: Vcpu)
    requires w.rcx == MSR_EFER && r.rcx == MSR_EFER && r.efer == WriteMsr(w).value.efer
    ensures ReadMsr(r).Some?
    ensures ReadMsr(r).value.rdx % HALF == w.rdx % HALF && ReadMsr(r).value.rax % HALF == w.rax % HALF
    ensures ReadMsr(r).value.rdx / HALF == r.rdx / HALF && ReadMsr(r).value.rax / HALF == r.rax / HALF
  {
    HalvesApart(w.rdx % HALF, w.rax % HALF);
    LowHalf(r.rdx, r.efer / HALF);
    LowHalf(r.rax, r.efer);
  }

  lemma HalvesApart(hi: nat, lo: nat)
    requires hi < HALF && lo < HALF
    ensures (hi * HALF + lo) / HALF == hi && (hi * HALF + lo) % HALF == lo
  {
  }

  lemma LowHalf(reg: nat, val: nat)
    ensures WithLowHalf(reg, val) % HALF == val % HALF && WithLowHalf(reg, val) / HALF == reg / HALF
  {
  }

  /** The registers the handlers know: two to read, and EFER with eleven others to write. */
  lemma MsrAbortsExactly(s: Vcpu, exitinfo1: nat)
    ensures MsrExit(s, exitinfo1) == None <==>
              && !(exitinfo1 == 0 && s.rcx in {0x1B, 0xC000_0080})
              && !(exitinfo1 == 1
                   && s.rcx in {0x174, 0x175, 0x176, 0xC000_0080, 0xC000_0081, 0xC000_0082, 0xC000_0083, 0xC000_0084,
                                0xC000_0100, 0xC000_0101, 0xC000_0102, 0xC000_0103})
  {
  }

  /** The guest is to find no APIC: its base register reads as all ones. */
  lemma ApicBaseReadsOnes(s: Vcpu)
    requires s.rcx == 0x1B
    ensures MsrExit(s, 0).Some?
    ensures MsrExit(s, 0).value.rdx % HALF == MsrExit(s, 0).value.rax % HALF == 0xFFFF_FFFF
  {
    LowHalf(s.rdx, 0xFFFF_FFFF_FFFF_FFFF / HALF);
    LowHalf(s.rax, 0xFFFF_FFFF_FFFF_FFFF);
  }

  /** A read leaves all but the low halves of RDX and RAX, a write all but EFER and the TLB control. */
  lemma MsrChangesOnly(s: Vcpu, exitinfo1: nat)
    requires MsrExit(s, exitinfo1).Some?
    ensures var t := MsrExit(s, exitinfo1).value;
            if exitinfo1 == 0 then
              && t == s.(rax := t.rax, rdx := t.rdx)
              && t.rax / HALF == s.rax / HALF && t.rdx / HALF == s.rdx / HALF
            else t == s.(tlbControl := t.tlbControl, efer := t.efer)
  {
    if exitinfo1 == 0 {
      var val := if s.rcx == MSR_EFER then s.efer else 0xFFFF_FFFF_FFFF_FFFF;
      LowHalf(s.rdx, val / HALF);
      LowHalf(s.rax, val);
    }
  }
}

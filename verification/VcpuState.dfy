/**
 * The state the exit handlers share: the virtual CPU of ymirc/arch/x86/svm_vcpu.h
 * with the VMCB fields they touch, and the emulated I/O state of
 * ymirc/arch/x86/svm_ioio_guest_state.h.
 */
module VcpuState {
  import opened Bits

  // ---------------------------------------------------------------- emulated devices

  datatype Phase = Uninitialized | Phase1 | Phase2 | Phase3 | Inited

  /** One 8259: initialization phase, vector offset, interrupt mask. */
  datatype Chip = Chip(phase: Phase, base: nat, mask: nat)

  datatype GuestIo = GuestIo(ier: nat, mcr: nat, primary: Chip, secondary: Chip)

  /** svm_ioio_guest_state_new. */
  function NewGuestIo(): GuestIo {
    GuestIo(0, 0, NewChip(), NewChip())
  }

  function NewChip(): Chip {
    Chip(Uninitialized, 0, 0xFF)
  }

  // ---------------------------------------------------------------- the virtual CPU

  /** pending_irq: one bit per line. */
  type Lines = s: seq<bool> | |s| == 16 witness seq(16, _ => false)

  function NoLines(): Lines {
    seq(16, _ => false)
  }

  datatype Vcpu = Vcpu(
    rax: nat, rcx: nat, rdx: nat, rflags: nat, efer: nat, tlbControl: nat,
    vIrq: bool, vector: nat, io: GuestIo, pending: Lines, last: nat)

  class SvmVcpu {
    // Saved guest registers and VMCB fields.
    var rax: nat
    var rcx: nat
    var rdx: nat
    var rflags: nat
    var efer: nat
    var tlbControl: nat
    var vIrq: bool
    var vIntrVector: nat
    // Host-side state.
    var guestIo: GuestIo
    var pendingIrq: Lines
    var lastInjectedIrq: nat

    ghost function State(): Vcpu
      reads this
    {
      Vcpu(rax, rcx, rdx, rflags, efer, tlbControl, vIrq, vIntrVector, guestIo, pendingIrq, lastInjectedIrq)
    }

    /** svm_vcpu_new, and the zeroed VMCB with the EFER value setup_vmcb writes. */
    constructor ()
      ensures State() == NewVcpu()
    {
      rax, rcx, rdx, rflags, efer, tlbControl := 0, 0, 0, 0, 0x1000, 0;
      vIrq, vIntrVector := false, 0;
      guestIo, pendingIrq, lastInjectedIrq := NewGuestIo(), NoLines(), 0;
    }
  }

  function NewVcpu(): Vcpu {
    Vcpu(0, 0, 0, 0, 0x1000, 0, false, 0, NewGuestIo(), NoLines(), 0)
  }

  /** Writing the low half of a register keeps its high half. */
  function WithLowHalf(reg: nat, val: nat): nat {
    reg / 0x1_0000_0000 * 0x1_0000_0000 + val % 0x1_0000_0000
  }

  /** A bit of a byte, as isset_8 tests it. */
  predicate IsSet8(val: nat, n: nat) {
    n < 8 && BitsOf(val, 8)[n]
  }
}

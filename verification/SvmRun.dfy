/**
 * The run loop of ymirc/arch/x86/svm_vcpu.c: VMRUN, then handle_exit, for ever.
 * A run is a sequence of events; an event is what the guest and the hardware do
 * between VMRUN and #VMEXIT, and the exit that ends it. Host interrupts arrive
 * where the handler opens a window for them. Virtual interrupts follow section
 * 15.21 of the AMD64 Architecture Programmer's Manual, Volume 2.
 */
module SvmRun {
  import opened Bits
  import opened VcpuState
  import opened SvmIoio
  import opened SvmMsr
  import opened Wrappers

  const PRIMARY_VECTOR_OFFSET := 32

  // ---------------------------------------------------------------- recording interrupts

  /** intr_subscriber_callback on one vector. */
  function Record(p: Lines, vector: nat): Lines {
    if PRIMARY_VECTOR_OFFSET <= vector < PRIMARY_VECTOR_OFFSET + 16 then p[vector - PRIMARY_VECTOR_OFFSET := true]
    else p
  }

  function RecordAll(p: Lines, vectors: seq<nat>): Lines
    decreases |vectors|
  {
    if vectors == [] then p else RecordAll(Record(p, vectors[0]), vectors[1..])
  }

  lemma {:induction false} RecordAllIs(p: Lines, vectors: seq<nat>, l: nat)
    requires l < 16
    ensures RecordAll(p, vectors)[l] <==> p[l] || PRIMARY_VECTOR_OFFSET + l in vectors
    decreases |vectors|
  {
    if vectors != [] {
      RecordAllIs(Record(p, vectors[0]), vectors[1..], l);
    }
  }

  // ---------------------------------------------------------------- injection

  /** RFLAGS.IF is bit 9. */
  predicate InterruptsEnabled(rflags: nat) {
    rflags / 0x200 % 2 == 1
  }

  predicate GateOpen(s: Vcpu) {
    s.io.primary.phase == Inited && InterruptsEnabled(s.rflags)
  }

  /** No mask stops the line: its own controller's, and for 8 to 15 the cascade line 2 as well. */
  predicate Unmasked(io: GuestIo, i: nat) {
    if i < 8 then !IsSet8(io.primary.mask, i) else !IsSet8(io.primary.mask, 2) && !IsSet8(io.secondary.mask, i - 8)
  }

  predicate Deliverable(s: Vcpu, i: nat) {
    i < 16 && s.pending[i] && Unmasked(s.io, i)
  }

  function LowestDeliverable(s: Vcpu, from: nat): (r: Option<nat>)
    ensures r.Some? ==> from <= r.value && Deliverable(s, r.value)
    ensures r.Some? ==> forall i | from <= i < r.value :: !Deliverable(s, i)
    ensures r == None ==> forall i | i >= from :: !Deliverable(s, i)
    decreases 16 - from
  {
    if from >= 16 then None else if Deliverable(s, from) then Some(from) else LowestDeliverable(s, from + 1)
  }

  /** The line inject_ext_intr injects, if it injects one. */
  function Chosen(s: Vcpu): Option<nat> {
    if GateOpen(s) then LowestDeliverable(s, 0) else None
  }

  /** Vectors are 8 bits wide. */
  function VectorFor(io: GuestIo, i: nat): nat {
    (if i < 8 then io.primary.base + i else io.secondary.base + (i - 8)) % 0x100
  }

  function Inject(s: Vcpu): Vcpu {
    match Chosen(s)
    case None => s
    case Some(i) => s.(vIrq := true, vector := VectorFor(s.io, i), pending := s.pending[i := false], last := i)
  }

  /**
   * inject_ext_intr: refused only when a gate is closed or no pending line is
   * deliverable; otherwise the lowest deliverable line, and only its bit cleared.
   */
  method InjectExtIntr(v: SvmVcpu) returns (ok: bool)
    modifies v`vIrq, v`vIntrVector, v`pendingIrq, v`lastInjectedIrq
    ensures ok <==> GateOpen(old(v.State())) && exists i :: Deliverable(old(v.State()), i)
    ensures ok ==> Deliverable(old(v.State()), v.lastInjectedIrq)
                   && (forall i | 0 <= i < v.lastInjectedIrq :: !Deliverable(old(v.State()), i))
    ensures v.State() == Inject(old(v.State()))
  {
    hide IsSet8, Chosen;
    ghost var s := v.State();
    var isSecondaryMasked := IsSet8(v.guestIo.primary.mask, 2);
    if v.pendingIrq == NoLines() {
      NothingPending(s);
      NotChosen(s);
      return false;
    }
    if v.guestIo.primary.phase != Inited || !InterruptsEnabled(v.rflags) {
      NotChosen(s);
      return false;
    }
    for i := 0 to 16
      invariant v.State() == s && forall j | 0 <= j < i :: !Deliverable(s, j)
    {
      if isSecondaryMasked && i >= 8 {
        break;
      }
      if v.pendingIrq[i] {
        var isMasked := if i < 8 then IsSet8(v.guestIo.primary.mask, i) else IsSet8(v.guestIo.secondary.mask, i - 8);
        if !isMasked {
          ChosenIs(s, i);
          v.vIrq := true;
          v.vIntrVector := (if i < 8 then i + v.guestIo.primary.base else i - 8 + v.guestIo.secondary.base) % 0x100;
          v.pendingIrq := v.pendingIrq[i := false];
          v.lastInjectedIrq := i;
          return true;
        }
      }
    }
    NotChosen(s);
    return false;
  }

  lemma NothingPending(s: Vcpu)
    requires s.pending == NoLines()
    ensures forall i :: !Deliverable(s, i)
  {
  }

  lemma ChosenIs(s: Vcpu, i: nat)
    requires GateOpen(s) && Deliverable(s, i) && forall j | 0 <= j < i :: !Deliverable(s, j)
    ensures Chosen(s) == Some(i) && exists j :: Deliverable(s, j)
  {
    hide Deliverable;
  }

  lemma NotChosen(s: Vcpu)
    requires !GateOpen(s) || forall i | 0 <= i < 16 :: !Deliverable(s, i)
    ensures Chosen(s) == None && !(GateOpen(s) && exists j :: Deliverable(s, j))
  {
  }

  // ---------------------------------------------------------------- exits

  /**
   * The exits. `arrivals` are the vectors that come in between stgi and clgi,
   * `waits` those of each hlt of the HLT handler; `hw` is the value of a port
   * that is passed through; the 32-bit results of a CPUID are taken as they are.
   */
  datatype Exit =
    | Intr(arrivals: seq<nat>)
    | Cpuid(rax: nat, rcx: nat, rdx: nat)
    | Hlt(waits: seq<seq<nat>>)
    | Ioio(exitinfo1: nat, hw: nat)
    | Msr(exitinfo1: nat)
    | Vmmcall
    | Unhandled

  /** A handled exit resumes the guest, still waits for an interrupt, or has aborted. */
  datatype Result = Resumed(s: Vcpu) | Waiting(s: Vcpu) | Aborted

  function HltLoop(s: Vcpu, waits: seq<seq<nat>>): Result
    decreases |waits|
  {
    if Chosen(s).Some? then Resumed(Inject(s))
    else if waits == [] then Waiting(s)
    else HltLoop(s.(pending := RecordAll(s.pending, waits[0])), waits[1..])
  }

  /** An in-flight line goes back to pending when a physical interrupt comes first. */
  function Requeue(s: Vcpu): Vcpu {
    if s.vIrq && s.last < 16 then s.(pending := s.pending[s.last := true]) else s
  }

  function OfOption(s: Option<Vcpu>): Result {
    if s.Some? then Resumed(s.value) else Aborted
  }

  function IoioExit(s: Vcpu, info: IoInfo, hw: nat): Option<Vcpu> {
    if info.isIn then
      var rax := InputFrom(s.io, info, hw, s.rax);
      if rax == None then None else Some(s.(rax := rax.value))
    else
      var io := OutputTo(s.io, info, s.rax);
      if io == None then None else Some(s.(io := io.value))
  }

  /** The subleaves of leaves 7 and 0xd that handle_svm_cpuid_exit does not know. */
  predicate CpuidAborts(leaf: nat, sub: nat) {
    (leaf == 7 && sub > 2) || (leaf == 0xd && sub != 1)
  }

  /** handle_svm_cpuid_exit: the low halves of the registers, or an abort. */
  method HandleCpuid(v: SvmVcpu, rax: nat, rcx: nat, rdx: nat) returns (aborted: bool)
    modifies v`rax, v`rcx, v`rdx
    ensures aborted <==> CpuidAborts(old(v.rax), old(v.rcx))
    ensures !aborted ==>
              && v.rax == WithLowHalf(old(v.rax), rax) && v.rcx == WithLowHalf(old(v.rcx), rcx)
              && v.rdx == WithLowHalf(old(v.rdx), rdx)
  {
    aborted := false;
    match v.rax {
      case 7 =>
        match v.rcx {
          case 0 =>
          case 1 =>
          case 2 =>
          case _ => aborted := true;
        }
      case 0xd =>
        match v.rcx {
          case 1 =>
          case _ => aborted := true;
        }
      case _ =>
    }
    if !aborted {
      v.rax, v.rcx, v.rdx := WithLowHalf(v.rax, rax), WithLowHalf(v.rcx, rcx), WithLowHalf(v.rdx, rdx);
    }
  }

  function Handle(s: Vcpu, exit: Exit): Result {
    var s0 := s.(tlbControl := 0);
    match exit
    case Intr(arrivals) => Resumed(IntrExit(s0, arrivals))
    case Cpuid(rax, rcx, rdx) =>
      if CpuidAborts(s0.rax, s0.rcx) then Aborted
      else Resumed(s0.(rax := WithLowHalf(s0.rax, rax), rcx := WithLowHalf(s0.rcx, rcx),
          rdx := WithLowHalf(s0.rdx, rdx)))
    case Hlt(waits) => HltLoop(s0, waits)
    case Ioio(exitinfo1, hw) => OfOption(IoioExit(s0, DecodeInfo(exitinfo1), hw))
    case Msr(exitinfo1) => OfOption(MsrExit(s0, exitinfo1))
    case Vmmcall => Resumed(s0)
    case Unhandled => Aborted
  }

  method ReceiveAll(v: SvmVcpu, vectors: seq<nat>)
    modifies v`pendingIrq
    ensures v.State() == old(v.State()).(pending := RecordAll(old(v.pendingIrq), vectors))
  {
    for k := 0 to |vectors|
      invariant v.State() == old(v.State()).(pending := v.pendingIrq)
      invariant RecordAll(v.pendingIrq, vectors[k..]) == RecordAll(old(v.pendingIrq), vectors)
    {
      v.pendingIrq := Record(v.pendingIrq, vectors[k]);
      assert vectors[k..][1..] == vectors[k + 1..];
    }
  }

  datatype Status = Resume | Wait | Abort

  /** The HLT case: inject, or wait for the next interrupt and try again. */
  method HandleHlt(v: SvmVcpu, waits: seq<seq<nat>>) returns (status: Status)
    modifies v`vIrq, v`vIntrVector, v`pendingIrq, v`lastInjectedIrq
    ensures match HltLoop(old(v.State()), waits)
            case Resumed(t) => status == Resume && v.State() == t
            case Waiting(t) => status == Wait && v.State() == t
            case Aborted => false
  {
    var k := 0;
    while true
      invariant 0 <= k <= |waits|
      invariant HltLoop(v.State(), waits[k..]) == HltLoop(old(v.State()), waits)
      decreases |waits| - k
    {
      var ok := InjectExtIntr(v);
      if ok {
        return Resume;
      }
      if k == |waits| {
        return Wait;
      }
      ReceiveAll(v, waits[k]);
      assert waits[k..][1..] == waits[k + 1..];
      k := k + 1;
    }
  }

  /** The state after an INTR exit. */
  function IntrExit(s: Vcpu, arrivals: seq<nat>): Vcpu {
    var s1 := Requeue(s);
    Inject(s1.(pending := RecordAll(s1.pending, arrivals)))
  }

  /** The INTR case: put back what is in flight, let interrupts in, inject. */
  method HandleIntr(v: SvmVcpu, arrivals: seq<nat>)
    requires v.lastInjectedIrq < 16
    modifies v`vIrq, v`vIntrVector, v`pendingIrq, v`lastInjectedIrq
    ensures v.State() == IntrExit(old(v.State()), arrivals)
  {
    hide Inject, RecordAll;
    if v.vIrq {
      v.pendingIrq := v.pendingIrq[v.lastInjectedIrq := true];
    }
    ReceiveAll(v, arrivals);
    var ok := InjectExtIntr(v);
  }

  /** handle_svm_ioio_exit. */
  method HandleIoioExit(v: SvmVcpu, exitinfo1: nat, hw: nat) returns (aborted: bool)
    modifies v`rax, v`guestIo
    ensures aborted <==> IoioExit(old(v.State()), DecodeInfo(exitinfo1), hw) == None
    ensures !aborted ==> v.State() == IoioExit(old(v.State()), DecodeInfo(exitinfo1), hw).value
  {
    hide InputFrom, OutputTo;
    var info := DecodeInfo(exitinfo1);
    if info.isIn {
      aborted := HandleIoioIn(v, info, hw);
    } else {
      aborted := HandleIoioOut(v, info);
    }
  }

  /** handle_exit. */
  method HandleExit(v: SvmVcpu, exit: Exit) returns (status: Status)
    requires v.lastInjectedIrq < 16
    modifies v
    ensures match Handle(old(v.State()), exit)
            case Resumed(t) => status == Resume && v.State() == t
            case Waiting(t) => status == Wait && v.State() == t
            case Aborted => status == Abort
  {
    hide IntrExit, HltLoop, IoioExit, MsrExit, CpuidAborts, WithLowHalf, DecodeInfo;
    var aborted := false;
    status := Resume;
    v.tlbControl := 0;
    match exit {
      case Intr(arrivals) => HandleIntr(v, arrivals);
      case Cpuid(rax, rcx, rdx) => aborted := HandleCpuid(v, rax, rcx, rdx);
      case Hlt(waits) => status := HandleHlt(v, waits);
      case Ioio(exitinfo1, hw) => aborted := HandleIoioExit(v, exitinfo1, hw);
      case Msr(exitinfo1) => aborted := HandleMsrExit(v, exitinfo1);
      case Vmmcall =>
      case Unhandled => aborted := true;
    }
    if aborted {
      status := Abort;
    }
  }

  // ---------------------------------------------------------------- runs

  /** What happens inside the guest: new registers, and perhaps the virtual interrupt is taken. */
  datatype GuestRun = GuestRun(rax: nat, rcx: nat, rdx: nat, rflags: nat, efer: nat, consumed: bool)

  datatype Event = Event(run: GuestRun, exit: Exit)

  /** VMRUN up to #VMEXIT. */
  function Enter(s: Vcpu, run: GuestRun): Vcpu {
    s.(rax := run.rax, rcx := run.rcx, rdx := run.rdx, rflags := run.rflags, efer := run.efer,
       vIrq := s.vIrq && !run.consumed)
  }

  function Step(s: Vcpu, e: Event): Result {
    Handle(Enter(s, e.run), e.exit)
  }

  function Run(s: Vcpu, events: seq<Event>): Result
    decreases |events|
  {
    if events == [] then Resumed(s)
    else
      match Step(s, events[0])
      case Resumed(t) => Run(t, events[1..])
      case Waiting(t) => Waiting(t)
      case Aborted => Aborted
  }

  /** The last event of a run acts on what the events before it left. */
  lemma {:induction false} RunLast(s: Vcpu, events: seq<Event>)
    requires events != []
    ensures Run(s, events) ==
              match Run(s, events[..|events| - 1])
              case Resumed(t) => Step(t, events[|events| - 1])
              case Waiting(t) => Waiting(t)
              case Aborted => Aborted
    decreases |events|
  {
    if |events| == 1 {
      assert events[..0] == [];
    } else {
      var rest := events[1..];
      assert events[..|events| - 1][1..] == rest[..|rest| - 1];
      match Step(s, events[0]) {
        case Resumed(t) => RunLast(t, rest);
        case _ =>
      }
    }
  }

  // ---------------------------------------------------------------- no interrupt is lost

  /** The line is pending, or in flight as the virtual interrupt the guest has not taken. */
  predicate Held(s: Vcpu, l: nat) {
    l < 16 && (s.pending[l] || (s.vIrq && s.last == l))
  }

  /** The guest takes the in-flight line. */
  predicate Takes(s: Vcpu, run: GuestRun, l: nat) {
    run.consumed && s.vIrq && s.last == l
  }

  lemma InjectKeeps(s: Vcpu, l: nat)
    requires Held(s, l) && s.last < 16 && (!s.vIrq || s.pending[s.last])
    ensures Held(Inject(s), l)
  {
  }

  /**
   * An HLT exit may be handled without losing the in-flight line: there is none,
   * or it is pending as well, or nothing else can be injected over it.
   */
  predicate HltSafe(s: Vcpu) {
    !s.vIrq || s.pending[if s.last < 16 then s.last else 0] || !GateOpen(s)
    || forall i | 0 <= i < 16 && i != s.last :: !Unmasked(s.io, i)
  }

  /** The line is recorded while the HLT handler waits. */
  predicate RecordedWaiting(s: Vcpu, waits: seq<seq<nat>>, l: nat)
    decreases |waits|
  {
    Chosen(s) == None && waits != []
    && (PRIMARY_VECTOR_OFFSET + l in waits[0]
        || RecordedWaiting(s.(pending := RecordAll(s.pending, waits[0])), waits[1..], l))
  }

  predicate HeldAfter(r: Result, l: nat) {
    r.Aborted? || Held(r.s, l)
  }

  lemma {:induction false} HltKeeps(s: Vcpu, waits: seq<seq<nat>>, l: nat)
    requires s.last < 16 && HltSafe(s) && l < 16 && (Held(s, l) || RecordedWaiting(s, waits, l))
    ensures HeldAfter(HltLoop(s, waits), l)
    decreases |waits|
  {
    if Chosen(s).Some? {
      assert Unmasked(s.io, Chosen(s).value);
    } else if waits != [] {
      var s' := s.(pending := RecordAll(s.pending, waits[0]));
      RecordAllIs(s.pending, waits[0], l);
      RecordAllIs(s.pending, waits[0], s.last);
      HltKeeps(s', waits[1..], l);
    }
  }

  /** Otherwise there is a course of events that drops the in-flight line. */
  lemma HltLoses(s: Vcpu) returns (waits: seq<seq<nat>>)
    requires s.last < 16 && !HltSafe(s)
    ensures Held(s, s.last) && !HeldAfter(HltLoop(s, waits), s.last)
  {
    if Chosen(s).Some? {
      waits := [];
    } else {
      var i :| 0 <= i < 16 && i != s.last && Unmasked(s.io, i);
      waits := [[PRIMARY_VECTOR_OFFSET + i]];
      var s' := s.(pending := RecordAll(s.pending, waits[0]));
      RecordAllIs(s.pending, waits[0], i);
      RecordAllIs(s.pending, waits[0], s.last);
      assert Deliverable(s', i);
      assert HltLoop(s, waits) == HltLoop(s', waits[1..]);
    }
  }

  /** The HLT handler keeps every held line, whatever arrives while it waits, exactly from the safe states. */
  lemma HltKeepsExactlyWhenSafe(s: Vcpu)
    requires s.last < 16
    ensures HltSafe(s) <==>
              forall waits, l: nat {:trigger HeldAfter(HltLoop(s, waits), l)} :: Held(s, l) ==>
                  HeldAfter(HltLoop(s, waits), l)
  {
    if HltSafe(s) {
      forall waits, l: nat | Held(s, l)
        ensures HeldAfter(HltLoop(s, waits), l)
      {
        HltKeeps(s, waits, l);
      }
    } else {
      var waits := HltLoses(s);
    }
  }

  /** The exit records the line. */
  predicate Records(s: Vcpu, exit: Exit, l: nat) {
    match exit
    case Intr(arrivals) => PRIMARY_VECTOR_OFFSET + l in arrivals
    case Hlt(waits) => RecordedWaiting(s.(tlbControl := 0), waits, l)
    case _ => false
  }

  lemma HandleKeeps(s: Vcpu, exit: Exit, l: nat)
    requires s.last < 16 && l < 16 && (Held(s, l) || Records(s, exit, l)) && (exit.Hlt? ==> HltSafe(s))
    ensures HeldAfter(Handle(s, exit), l)
  {
    var s0 := s.(tlbControl := 0);
    match exit {
      case Intr(arrivals) =>
        var s1 := Requeue(s0);
        RecordAllIs(s1.pending, arrivals, l);
        RecordAllIs(s1.pending, arrivals, s1.last);
        InjectKeeps(s1.(pending := RecordAll(s1.pending, arrivals)), l);
      case Hlt(waits) => HltKeeps(s0, waits, l);
      case _ =>
    }
  }

  lemma {:induction false} HltKeepsLastInRange(s: Vcpu, waits: seq<seq<nat>>)
    requires s.last < 16
    ensures !HltLoop(s, waits).Aborted? && HltLoop(s, waits).s.last < 16
    decreases |waits|
  {
    if Chosen(s) == None && waits != [] {
      HltKeepsLastInRange(s.(pending := RecordAll(s.pending, waits[0])), waits[1..]);
    }
  }

  lemma LastInRange(s: Vcpu, e: Event)
    requires s.last < 16 && Step(s, e).Resumed?
    ensures Step(s, e).s.last < 16
  {
    if e.exit.Hlt? {
      HltKeepsLastInRange(Enter(s, e.run).(tlbControl := 0), e.exit.waits);
    }
  }

  method Vmrun(v: SvmVcpu, run: GuestRun)
    modifies v
    ensures v.State() == Enter(old(v.State()), run)
  {
    v.rax, v.rcx, v.rdx, v.rflags, v.efer := run.rax, run.rcx, run.rdx, run.rflags, run.efer;
    v.vIrq := v.vIrq && !run.consumed;
  }

  /** svm_vcpu_loop over the events of a run. */
  method VcpuLoop(v: SvmVcpu, events: seq<Event>) returns (status: Status)
    requires v.lastInjectedIrq < 16
    modifies v
    ensures match Run(old(v.State()), events)
            case Resumed(t) => status == Resume && v.State() == t
            case Waiting(t) => status == Wait && v.State() == t
            case Aborted => status == Abort
  {
    hide Handle;
    for k := 0 to |events|
      invariant v.lastInjectedIrq < 16
      invariant Run(v.State(), events[k..]) == Run(old(v.State()), events)
    {
      ghost var s := v.State();
      assert events[k..][1..] == events[k + 1..];
      Vmrun(v, events[k].run);
      status := HandleExit(v, events[k].exit);
      if status != Resume {
        return;
      }
      LastInRange(s, events[k]);
    }
    status := Resume;
  }

  /** Somewhere in the events the guest takes the line. */
  predicate Consumed(s: Vcpu, events: seq<Event>, l: nat)
    decreases |events|
  {
    events != []
    && (Takes(s, events[0].run, l) || (Step(s, events[0]).Resumed? && Consumed(Step(s, events[0]).s, events[1..], l)))
  }

  /** Every HLT exit of the run is entered in a safe state. */
  predicate HltsSafe(s: Vcpu, events: seq<Event>)
    decreases |events|
  {
    events == []
    || ((events[0].exit.Hlt? ==> HltSafe(Enter(s, events[0].run)))
        && (Step(s, events[0]).Resumed? ==> HltsSafe(Step(s, events[0]).s, events[1..])))
  }

  /** A held line stays held until the guest takes it. */
  lemma {:induction false} HeldUntilConsumed(s: Vcpu, events: seq<Event>, l: nat)
    requires s.last < 16 && Held(s, l) && HltsSafe(s, events) && !Consumed(s, events, l)
    ensures HeldAfter(Run(s, events), l)
    decreases |events|
  {
    if events != [] {
      HandleKeeps(Enter(s, events[0].run), events[0].exit, l);
      if Step(s, events[0]).Resumed? {
        LastInRange(s, events[0]);
        HeldUntilConsumed(Step(s, events[0]).s, events[1..], l);
      }
    }
  }

  /**
   * No interrupt is lost: a line recorded during some exit of a run is pending or
   * in flight from then on until the guest takes it, provided HLT exits are
   * entered in safe states, in particular with no virtual interrupt in flight.
   */
  lemma NoIrqLost(s: Vcpu, e: Event, later: seq<Event>, l: nat)
    requires s.last < 16 && l < 16 && Records(Enter(s, e.run), e.exit, l)
    requires HltsSafe(s, [e] + later)
    requires Step(s, e).Resumed? && !Consumed(Step(s, e).s, later, l)
    ensures HeldAfter(Run(Step(s, e).s, later), l)
  {
    var events := [e] + later;
    assert events[0] == e && events[1..] == later;
    HandleKeeps(Enter(s, e.run), e.exit, l);
    LastInRange(s, e);
    HeldUntilConsumed(Step(s, e).s, later, l);
  }

  lemma {:induction false} WaitingKeepsPending(s: Vcpu, waits: seq<seq<nat>>, l: nat)
    requires l < 16 && s.pending[l]
    ensures !HltLoop(s, waits).Aborted?
    ensures var t := HltLoop(s, waits).s; t.pending[l] || (t.vIrq && t.last == l)
    decreases |waits|
  {
    if Chosen(s) == None && waits != [] {
      RecordAllIs(s.pending, waits[0], l);
      WaitingKeepsPending(s.(pending := RecordAll(s.pending, waits[0])), waits[1..], l);
    }
  }

  /** Only its own injection clears a line's pending bit, so an arrival during flight is kept apart from the flight. */
  lemma PendingUntilInjected(s: Vcpu, e: Event, l: nat)
    requires l < 16 && s.pending[l] && Step(s, e).Resumed?
    ensures var t := Step(s, e).s; t.pending[l] || (t.vIrq && t.last == l)
  {
    var s0 := Enter(s, e.run).(tlbControl := 0);
    match e.exit {
      case Intr(arrivals) => RecordAllIs(Requeue(s0).pending, arrivals, l);
      case Hlt(waits) => WaitingKeepsPending(s0, waits, l);
      case _ =>
    }
  }

  // ---------------------------------------------------------------- the port history of a run

  /** The write an event makes to one of the controllers. */
  function EventWrites(e: Event, secondary: bool): (ws: seq<ChipWrite>)
    ensures |ws| <= 1
  {
    if e.exit.Ioio? then ChipWrites(DecodeInfo(e.exit.exitinfo1), e.run.rax % 0x100, secondary) else []
  }

  function HistoryOf(events: seq<Event>, secondary: bool): seq<ChipWrite> {
    if events == [] then []
    else HistoryOf(events[..|events| - 1], secondary) + EventWrites(events[|events| - 1], secondary)
  }

  lemma {:induction false} HltKeepsDevices(s: Vcpu, waits: seq<seq<nat>>)
    ensures !HltLoop(s, waits).Aborted?
    ensures var t := HltLoop(s, waits).s; t.io == s.io && t.efer == s.efer && t.tlbControl == s.tlbControl
    decreases |waits|
  {
    if Chosen(s) == None && waits != [] {
      HltKeepsDevices(s.(pending := RecordAll(s.pending, waits[0])), waits[1..]);
    }
  }

  lemma StepIo(s: Vcpu, e: Event)
    requires !Step(s, e).Aborted?
    ensures Apply(s.io.primary, EventWrites(e, false), PRIMARY_ICW3) == Some(Step(s, e).s.io.primary)
    ensures Apply(s.io.secondary, EventWrites(e, true), SECONDARY_ICW3) == Some(Step(s, e).s.io.secondary)
  {
    if e.exit.Hlt? {
      HltKeepsDevices(Enter(s, e.run).(tlbControl := 0), e.exit.waits);
    }
  }

  lemma FoldExtends(ws: seq<ChipWrite>, more: seq<ChipWrite>, icw3: nat)
    requires |more| <= 1 && Fold(ws, icw3).Some?
    ensures Fold(ws + more, icw3) == Apply(Fold(ws, icw3).value, more, icw3)
  {
    if more == [] {
      assert ws + more == ws;
    } else {
      assert (ws + more)[..|ws + more| - 1] == ws;
    }
  }

  /** In every run that has not aborted, each controller is the fold of the writes to its own two ports. */
  lemma {:induction false} PicIsHistory(events: seq<Event>)
    requires Run(NewVcpu(), events).Resumed?
    ensures var io := Run(NewVcpu(), events).s.io;
            && Fold(HistoryOf(events, false), PRIMARY_ICW3) == Some(io.primary)
            && Fold(HistoryOf(events, true), SECONDARY_ICW3) == Some(io.secondary)
    decreases |events|
  {
    hide Step, Fold;
    if events == [] {
      assert Fold([], PRIMARY_ICW3) == Fold([], SECONDARY_ICW3) == Some(NewChip()) by { EmptyHistory(); }
    } else {
      var before, e := events[..|events| - 1], events[|events| - 1];
      RunLast(NewVcpu(), events);
      PicIsHistory(before);
      StepIo(Run(NewVcpu(), before).s, e);
      FoldExtends(HistoryOf(before, false), EventWrites(e, false), PRIMARY_ICW3);
      FoldExtends(HistoryOf(before, true), EventWrites(e, true), SECONDARY_ICW3);
    }
  }

  lemma EmptyHistory()
    ensures forall icw3 :: Fold([], icw3) == Some(NewChip())
  {
  }

  /** In every run a read of a data port returns the byte of the last OCW1 written to it. */
  lemma DataPortReadsLastOcw1(events: seq<Event>, e: Event, secondary: bool)
    requires Run(NewVcpu(), events).Resumed? && e.exit.Ioio?
    requires var info := DecodeInfo(e.exit.exitinfo1); info.isIn && info.port == if secondary then 0xA1 else 0x21
    requires Step(Run(NewVcpu(), events).s, e).Resumed?
    ensures Step(Run(NewVcpu(), events).s, e).s.rax == LastOcw1(HistoryOf(events, secondary))
  {
    hide Run, Fold;
    PicIsHistory(events);
    MaskIsLastOcw1(HistoryOf(events, secondary), if secondary then SECONDARY_ICW3 else PRIMARY_ICW3);
  }

  /** The byte an event sends to a port, if it sends one. */
  function Sent(e: Event, port: nat): Option<nat> {
    if e.exit.Ioio? && !DecodeInfo(e.exit.exitinfo1).isIn && DecodeInfo(e.exit.exitinfo1).port == port then
      Some(e.run.rax % 0x100)
    else None
  }

  /** The byte last sent to a port, or 0. */
  function LastSent(events: seq<Event>, port: nat): nat {
    if events == [] then 0
    else
      match Sent(events[|events| - 1], port)
      case Some(byte) => byte
      case None => LastSent(events[..|events| - 1], port)
  }

  const SERIAL_IER := 0x3F9
  const SERIAL_MCR := 0x3FC

  lemma StepSerial(s: Vcpu, e: Event)
    requires !Step(s, e).Aborted?
    ensures Step(s, e).s.io.ier == if Sent(e, SERIAL_IER).Some? then Sent(e, SERIAL_IER).value else s.io.ier
    ensures Step(s, e).s.io.mcr == if Sent(e, SERIAL_MCR).Some? then Sent(e, SERIAL_MCR).value else s.io.mcr
  {
    if e.exit.Hlt? {
      HltKeepsDevices(Enter(s, e.run).(tlbControl := 0), e.exit.waits);
    }
  }

  /** In every run the two emulated serial registers hold the bytes last sent to them. */
  lemma {:induction false} SerialIsHistory(events: seq<Event>)
    requires Run(NewVcpu(), events).Resumed?
    ensures var io := Run(NewVcpu(), events).s.io;
            io.ier == LastSent(events, SERIAL_IER) && io.mcr == LastSent(events, SERIAL_MCR)
    decreases |events|
  {
    hide Step, Sent;
    if events != [] {
      RunLast(NewVcpu(), events);
      SerialIsHistory(events[..|events| - 1]);
      StepSerial(Run(NewVcpu(), events[..|events| - 1]).s, events[|events| - 1]);
    }
  }

  /** In every run a read of IER or MCR succeeds and returns the byte last sent there, or 0. */
  lemma SerialReadsBack(events: seq<Event>, e: Event, port: nat)
    requires Run(NewVcpu(), events).Resumed? && e.exit.Ioio? && (port == SERIAL_IER || port == SERIAL_MCR)
    requires DecodeInfo(e.exit.exitinfo1).isIn && DecodeInfo(e.exit.exitinfo1).port == port
    ensures Step(Run(NewVcpu(), events).s, e).Resumed?
    ensures Step(Run(NewVcpu(), events).s, e).s.rax == LastSent(events, port)
  {
    hide Run, LastSent;
    SerialIsHistory(events);
  }

  // ---------------------------------------------------------------- injection and the history

  /** The state in which inject_ext_intr is last called while the exit is handled. */
  function InjectionPoint(s: Vcpu, exit: Exit): Option<Vcpu> {
    var s0 := s.(tlbControl := 0);
    match exit
    case Intr(arrivals) => Some(Requeue(s0).(pending := RecordAll(Requeue(s0).pending, arrivals)))
    case Hlt(waits) => Some(HltPoint(s0, waits))
    case _ => None
  }

  function HltPoint(s: Vcpu, waits: seq<seq<nat>>): Vcpu
    decreases |waits|
  {
    if Chosen(s).Some? || waits == [] then s else HltPoint(s.(pending := RecordAll(s.pending, waits[0])), waits[1..])
  }

  lemma {:induction false} HltInjectsAtItsPoint(s: Vcpu, waits: seq<seq<nat>>)
    ensures var u := HltPoint(s, waits);
            && u.io == s.io && u.rflags == s.rflags
            && HltLoop(s, waits) == if Chosen(u).Some? then Resumed(Inject(u)) else Waiting(u)
    decreases |waits|
  {
    if Chosen(s) == None && waits != [] {
      HltInjectsAtItsPoint(s.(pending := RecordAll(s.pending, waits[0])), waits[1..]);
    }
  }

  /** Only INTR and HLT exits inject; every other exit leaves the interrupt state as the guest left it. */
  lemma InjectionOnlyThere(s: Vcpu, exit: Exit)
    requires Handle(s, exit).Resumed?
    ensures var t := Handle(s, exit).s;
            match InjectionPoint(s, exit)
            case Some(u) => t == Inject(u) && u.io == s.io && u.rflags == s.rflags && (exit.Hlt? ==> Chosen(u).Some?)
            case None => t.vIrq == s.vIrq && t.vector == s.vector && t.pending == s.pending && t.last == s.last
  {
    if exit.Hlt? {
      HltInjectsAtItsPoint(s.(tlbControl := 0), exit.waits);
    }
  }

  /** The last OCW1 bytes leave the line open: its own bit, and for lines 8 to 15 bit 2 of the primary's as well. */
  predicate LineOpen(events: seq<Event>, i: nat) {
    if i < 8 then BitOf(LastOcw1(HistoryOf(events, false)), i) == 0
    else BitOf(LastOcw1(HistoryOf(events, false)), 2) == 0 && BitOf(LastOcw1(HistoryOf(events, true)), i - 8) == 0
  }

  lemma MaskBit(val: nat, n: nat)
    requires n < 8
    ensures IsSet8(val, n) <==> BitOf(val, n) == 1
  {
    hide BitsOf, BitOf;
    BitIs(val, 8, n);
  }

  lemma UnmaskedIsOpen(events: seq<Event>, i: nat)
    requires Run(NewVcpu(), events).Resumed? && i < 16
    ensures Unmasked(Run(NewVcpu(), events).s.io, i) <==> LineOpen(events, i)
  {
    hide Run, Fold, IsSet8, BitOf;
    PicIsHistory(events);
    MaskIsLastOcw1(HistoryOf(events, false), PRIMARY_ICW3);
    MaskIsLastOcw1(HistoryOf(events, true), SECONDARY_ICW3);
    var io := Run(NewVcpu(), events).s.io;
    MaskBit(io.primary.mask, if i < 8 then i else 2);
    MaskBit(io.secondary.mask, if i < 8 then i else i - 8);
  }

  /** The vector of a line: its number at its controller on top of that controller's last ICW2, in 8 bits. */
  function VectorByHistory(events: seq<Event>, i: nat): nat {
    if i < 8 then (LastIcw2(HistoryOf(events, false)) + i) % 0x100
    else (LastIcw2(HistoryOf(events, true)) + i - 8) % 0x100
  }

  lemma VectorIs(events: seq<Event>, i: nat)
    requires Run(NewVcpu(), events).Resumed?
    ensures VectorFor(Run(NewVcpu(), events).s.io, i) == VectorByHistory(events, i)
  {
    hide Run, Fold, HistoryOf, LastIcw2, NewVcpu;
    PicIsHistory(events);
    BaseIsLastIcw2(HistoryOf(events, false), PRIMARY_ICW3);
    BaseIsLastIcw2(HistoryOf(events, true), SECONDARY_ICW3);
  }

  /**
   * Whenever a run injects a line, the guest had interrupts enabled and the
   * primary had received ICW1, ICW2, a valid ICW3 and ICW4; the line is the lowest
   * pending one the last OCW1 bytes leave open, only its pending bit is cleared,
   * and the vector is the line on top of its controller's last ICW2.
   */
  lemma InjectionFollowsHistory(events: seq<Event>, e: Event, u: Vcpu)
    returns (pre: seq<ChipWrite>, tail: seq<ChipWrite>)
    requires Run(NewVcpu(), events).Resumed? && Step(Run(NewVcpu(), events).s, e).Resumed?
    requires InjectionPoint(Enter(Run(NewVcpu(), events).s, e.run), e.exit) == Some(u) && Chosen(u).Some?
    ensures BitOf(e.run.rflags, 9) == 1
    ensures HistoryOf(events, false) == pre + [Command(0x11)] + tail && NoIcw1(tail)
    ensures |DataBytes(tail)| >= 3 && DataBytes(tail)[1] == 4
    ensures var t, i := Step(Run(NewVcpu(), events).s, e).s, Chosen(u).value;
            && i < 16 && u.pending[i] && LineOpen(events, i)
            && (forall j | 0 <= j < i :: !(u.pending[j] && LineOpen(events, j)))
            && t.vIrq && t.last == i && t.pending == u.pending[i := false]
            && t.vector == VectorByHistory(events, i)
            && (i < 8 ==> t.vector == (DataBytes(tail)[0] + i) % 0x100)
  {
    hide Run, Fold, Unmasked, LineOpen, VectorByHistory, BitOf, Step, InjectionPoint, LowestDeliverable;
    var s := Run(NewVcpu(), events).s;
    PicIsHistory(events);
    InjectedLine(events, e, u);
    InterruptFlag(e.run.rflags);
    pre, tail := InitedMeansSequence(HistoryOf(events, false), PRIMARY_ICW3);
  }

  lemma InjectedLine(events: seq<Event>, e: Event, u: Vcpu)
    requires Run(NewVcpu(), events).Resumed? && Step(Run(NewVcpu(), events).s, e).Resumed?
    requires InjectionPoint(Enter(Run(NewVcpu(), events).s, e.run), e.exit) == Some(u) && Chosen(u).Some?
    ensures var s, t, i := Run(NewVcpu(), events).s, Step(Run(NewVcpu(), events).s, e).s, Chosen(u).value;
            && GateOpen(u) && u.io == s.io && u.rflags == e.run.rflags
            && i < 16 && u.pending[i] && LineOpen(events, i)
            && (forall j | 0 <= j < i :: !(u.pending[j] && LineOpen(events, j)))
            && t.vIrq && t.last == i && t.pending == u.pending[i := false]
            && t.vector == VectorFor(s.io, i) == VectorByHistory(events, i)
  {
    hide Run, Unmasked, LineOpen, VectorByHistory, VectorFor, InjectionPoint, GateOpen;
    var s, i := Run(NewVcpu(), events).s, Chosen(u).value;
    InjectionOnlyThere(Enter(s, e.run), e.exit);
    VectorIs(events, i);
    UnmaskedIsOpen(events, i);
    forall j | 0 <= j < i
      ensures !(u.pending[j] && LineOpen(events, j))
    {
      UnmaskedIsOpen(events, j);
      assert !Deliverable(u, j);
    }
  }

  lemma InterruptFlag(rflags: nat)
    ensures InterruptsEnabled(rflags) <==> BitOf(rflags, 9) == 1
  {
    assert Pow2(9) == 2 * Pow2(8);
    Pow2Values();
  }

  /** The guest can be interrupted: the primary is past its fourth initialization byte, and IF is set. */
  predicate Interruptible(events: seq<Event>, rflags: nat) {
    var n := SinceIcw1(HistoryOf(events, false));
    n.Some? && n.value >= 3 && BitOf(rflags, 9) == 1
  }

  lemma GateByHistory(events: seq<Event>, rflags: nat)
    requires Run(NewVcpu(), events).Resumed?
    ensures GateOpen(Run(NewVcpu(), events).s.(rflags := rflags)) <==> Interruptible(events, rflags)
  {
    hide Run, Fold, BitOf, LastOcw1;
    PicIsHistory(events);
    MaskIsLastOcw1(HistoryOf(events, false), PRIMARY_ICW3);
    InterruptFlag(rflags);
  }

  /** At an INTR exit the line waits: it was pending, it is in flight, or its vector arrives. */
  predicate Awaits(s: Vcpu, run: GuestRun, arrivals: seq<nat>, l: nat) {
    l < 16 && (s.pending[l] || 32 + l in arrivals || (s.vIrq && !run.consumed && s.last == l))
  }

  lemma PendingAtIntr(s: Vcpu, run: GuestRun, arrivals: seq<nat>, l: nat)
    requires s.last < 16 && l < 16
    ensures var s0 := Requeue(Enter(s, run).(tlbControl := 0));
            RecordAll(s0.pending, arrivals)[l] <==> Awaits(s, run, arrivals, l)
  {
    RecordAllIs(Requeue(Enter(s, run).(tlbControl := 0)).pending, arrivals, l);
  }

  /**
   * An INTR exit of any run, in full: if the guest can be interrupted and an open
   * line waits, the lowest such line is injected and the others stay pending;
   * otherwise all waiting lines are pending and the virtual interrupt is as before.
   */
  lemma IntrExitInFull(events: seq<Event>, run: GuestRun, arrivals: seq<nat>)
    requires Run(NewVcpu(), events).Resumed?
    ensures Step(Run(NewVcpu(), events).s, Event(run, Intr(arrivals))).Resumed?
    ensures var s := Run(NewVcpu(), events).s;
            var t := Step(s, Event(run, Intr(arrivals))).s;
            if Interruptible(events, run.rflags) && exists l :: Awaits(s, run, arrivals, l) && LineOpen(events, l) then
              && t.vIrq && Awaits(s, run, arrivals, t.last) && LineOpen(events, t.last)
              && (forall l | 0 <= l < t.last :: !(Awaits(s, run, arrivals, l) && LineOpen(events, l)))
              && (forall l | 0 <= l < 16 :: t.pending[l] <==> Awaits(s, run, arrivals, l) && l != t.last)
              && t.vector == VectorByHistory(events, t.last)
            else
              && t.vIrq == (s.vIrq && !run.consumed) && t.last == s.last && t.vector == s.vector
              && (forall l | 0 <= l < 16 :: t.pending[l] <==> Awaits(s, run, arrivals, l))
  {
    hide Run, Unmasked, LineOpen, VectorByHistory, VectorFor, Interruptible, Awaits, RecordAll, GateOpen;
    var s := Run(NewVcpu(), events).s;
    LastAlwaysInRange(events);
    var s0 := Requeue(Enter(s, run).(tlbControl := 0));
    var u := s0.(pending := RecordAll(s0.pending, arrivals));
    forall l: nat | l < 16
      ensures Unmasked(s.io, l) <==> LineOpen(events, l)
      ensures u.pending[l] <==> Awaits(s, run, arrivals, l)
      ensures VectorFor(s.io, l) == VectorByHistory(events, l)
    {
      UnmaskedIsOpen(events, l);
      PendingAtIntr(s, run, arrivals, l);
      VectorIs(events, l);
    }
    SameGate(u, s.(rflags := run.rflags));
    GateByHistory(events, run.rflags);
    AwaitsLine(s, run, arrivals);
    assert forall l: nat :: Deliverable(u, l) <==> Awaits(s, run, arrivals, l) && LineOpen(events, l);
  }

  lemma AwaitsLine(s: Vcpu, run: GuestRun, arrivals: seq<nat>)
    ensures forall l | Awaits(s, run, arrivals, l) :: l < 16
  {
  }

  lemma SameGate(s: Vcpu, t: Vcpu)
    requires s.io == t.io && s.rflags == t.rflags
    ensures GateOpen(s) <==> GateOpen(t)
  {
  }

  lemma {:induction false} LastAlwaysInRange(events: seq<Event>)
    requires Run(NewVcpu(), events).Resumed?
    ensures Run(NewVcpu(), events).s.last < 16
    decreases |events|
  {
    hide Step;
    if events != [] {
      RunLast(NewVcpu(), events);
      LastAlwaysInRange(events[..|events| - 1]);
      LastInRange(Run(NewVcpu(), events[..|events| - 1]).s, events[|events| - 1]);
    }
  }

  /** The line's vector arrives during one of the waits. */
  predicate ArrivesIn(waits: seq<seq<nat>>, l: nat) {
    exists k | 0 <= k < |waits| :: 32 + l in waits[k]
  }

  /** The line can wake the guest: no mask stops it, and it is pending or arrives. */
  predicate CanWake(s: Vcpu, waits: seq<seq<nat>>, l: nat) {
    l < 16 && Unmasked(s.io, l) && (s.pending[l] || ArrivesIn(waits, l))
  }

  lemma {:induction false} HltWakes(s: Vcpu, waits: seq<seq<nat>>)
    ensures HltLoop(s, waits).Resumed? <==> GateOpen(s) && exists l :: CanWake(s, waits, l)
    decreases |waits|
  {
    hide Unmasked, RecordAll, GateOpen;
    if Chosen(s).Some? {
      assert CanWake(s, waits, Chosen(s).value);
    } else if waits == [] {
      assert forall l :: CanWake(s, waits, l) ==> Deliverable(s, l);
    } else {
      var s' := s.(pending := RecordAll(s.pending, waits[0]));
      SameGate(s, s');
      forall l: nat
        ensures CanWake(s, waits, l) <==> CanWake(s', waits[1..], l)
      {
        if l < 16 {
          RecordAllIs(s.pending, waits[0], l);
          ArrivesFirstOrLater(waits, l);
        }
      }
      HltWakes(s', waits[1..]);
    }
  }

  lemma ArrivesFirstOrLater(waits: seq<seq<nat>>, l: nat)
    requires waits != []
    ensures ArrivesIn(waits, l) <==> 32 + l in waits[0] || ArrivesIn(waits[1..], l)
  {
    if ArrivesIn(waits[1..], l) {
      var k :| 0 <= k < |waits[1..]| && 32 + l in waits[1..][k];
      assert waits[k + 1] == waits[1..][k];
    }
    if ArrivesIn(waits, l) && 32 + l !in waits[0] {
      var k :| 0 <= k < |waits| && 32 + l in waits[k];
      assert waits[1..][k - 1] == waits[k];
    }
  }

  /**
   * In any run a halted guest wakes up if and only if it can be interrupted and an
   * open line is pending or arrives while it waits; until then it goes on waiting.
   */
  lemma HaltedWakesExactly(events: seq<Event>, run: GuestRun, waits: seq<seq<nat>>)
    requires Run(NewVcpu(), events).Resumed?
    ensures var s := Run(NewVcpu(), events).s;
            var r := Step(s, Event(run, Hlt(waits)));
            && (r.Resumed? || r.Waiting?)
            && (r.Resumed? <==> Interruptible(events, run.rflags) && exists l :: OpenAndComing(events, s, waits, l))
  {
    hide Run, Unmasked, LineOpen, Interruptible, ArrivesIn, GateOpen, HltLoop;
    var s := Run(NewVcpu(), events).s;
    var s0 := Enter(s, run).(tlbControl := 0);
    HltWakes(s0, waits);
    HltKeepsDevices(s0, waits);
    SameGate(s0, s.(rflags := run.rflags));
    GateByHistory(events, run.rflags);
    forall l: nat
      ensures CanWake(s0, waits, l) <==> OpenAndComing(events, s, waits, l)
    {
      if l < 16 {
        UnmaskedIsOpen(events, l);
      }
    }
  }

  /** An open line is pending or arrives while the guest waits. */
  predicate OpenAndComing(events: seq<Event>, s: Vcpu, waits: seq<seq<nat>>, l: nat) {
    l < 16 && LineOpen(events, l) && (s.pending[l] || ArrivesIn(waits, l))
  }

  // ---------------------------------------------------------------- port accesses and the history

  /** In any run an output to a controller aborts exactly if it is no byte, or a byte the controller does not know. */
  lemma PicOutAbortsExactly(events: seq<Event>, e: Event, secondary: bool)
    requires Run(NewVcpu(), events).Resumed? && e.exit.Ioio? && !DecodeInfo(e.exit.exitinfo1).isIn
    ensures var info, byte := DecodeInfo(e.exit.exitinfo1), e.run.rax % 0x100;
            var r := Step(Run(NewVcpu(), events).s, e);
            && (info.port == (if secondary then 0xA0 else 0x20) ==>
                  (r.Aborted? <==> !info.sz8 || (byte != 0x11 && !(0x60 <= byte <= 0x67))))
            && (info.port == (if secondary then 0xA1 else 0x21) ==>
                  (r.Aborted? <==> !info.sz8 || (SinceIcw1(HistoryOf(events, secondary)) == Some(1)
                                                 && byte != if secondary then 2 else 4)))
  {
    hide Run, Fold, DecodeInfo, LastOcw1, HistoryOf, SinceIcw1, NewVcpu;
    PicIsHistory(events);
    MaskIsLastOcw1(HistoryOf(events, secondary), if secondary then SECONDARY_ICW3 else PRIMARY_ICW3);
  }

  /** And an input aborts exactly at a command port, during an initialization sequence, or if it is no byte. */
  lemma PicInAbortsExactly(events: seq<Event>, e: Event, secondary: bool)
    requires Run(NewVcpu(), events).Resumed? && e.exit.Ioio? && DecodeInfo(e.exit.exitinfo1).isIn
    ensures var info, n := DecodeInfo(e.exit.exitinfo1), SinceIcw1(HistoryOf(events, secondary));
            var r := Step(Run(NewVcpu(), events).s, e);
            && (info.port == (if secondary then 0xA0 else 0x20) ==> r.Aborted?)
            && (info.port == (if secondary then 0xA1 else 0x21) ==>
                  (r.Aborted? <==> !info.sz8 || (n.Some? && n.value < 3)))
  {
    hide Run, Fold, DecodeInfo, LastOcw1, HistoryOf, SinceIcw1, NewVcpu;
    PicIsHistory(events);
    MaskIsLastOcw1(HistoryOf(events, secondary), if secondary then SECONDARY_ICW3 else PRIMARY_ICW3);
  }

  /** A run's writes to its controllers hold no command and no ICW3 they do not know. */
  lemma RunWritesAccepted(events: seq<Event>)
    requires Run(NewVcpu(), events).Resumed?
    ensures var ws := HistoryOf(events, false); forall i | 0 <= i < |ws| :: !RefusedAt(ws, i, 4)
    ensures var ws := HistoryOf(events, true); forall i | 0 <= i < |ws| :: !RefusedAt(ws, i, 2)
  {
    hide Run, Fold, RefusedAt;
    PicIsHistory(events);
    SvmIoio.AcceptedExactly(HistoryOf(events, false), 4);
    SvmIoio.AcceptedExactly(HistoryOf(events, true), 2);
  }

  // ---------------------------------------------------------------- what an exit leaves alone

  /** Of a 64-bit register only the low half may have changed. */
  predicate HighHalfKept(before: nat, after: nat) {
    after / 0x1_0000_0000 == before / 0x1_0000_0000
  }

  /**
   * Each kind of exit changes its own fields and no other: an input RAX, an output
   * the devices, CPUID and MSR accesses the low halves of registers, and only
   * interrupts and halts the interrupt state.
   */
  lemma ExitChangesOnly(s: Vcpu, exit: Exit)
    requires !Handle(s, exit).Aborted?
    ensures var t := Handle(s, exit).s;
            match exit
            case Intr(_) =>
              t == s.(tlbControl := 0, vIrq := t.vIrq, vector := t.vector, pending := t.pending, last := t.last)
            case Hlt(_) =>
              t == s.(tlbControl := 0, vIrq := t.vIrq, vector := t.vector, pending := t.pending, last := t.last)
            case Cpuid(_, _, _) =>
              && t == s.(tlbControl := 0, rax := t.rax, rcx := t.rcx, rdx := t.rdx)
              && HighHalfKept(s.rax, t.rax) && HighHalfKept(s.rcx, t.rcx) && HighHalfKept(s.rdx, t.rdx)
            case Ioio(exitinfo1, _) =>
              if BitOf(exitinfo1, 0) == 1 then t == s.(tlbControl := 0, rax := t.rax)
              else t == s.(tlbControl := 0, io := t.io)
            case Msr(exitinfo1) =>
              if exitinfo1 == 0 then
                && t == s.(tlbControl := 0, rax := t.rax, rdx := t.rdx)
                && HighHalfKept(s.rax, t.rax) && HighHalfKept(s.rdx, t.rdx)
              else t == s.(tlbControl := t.tlbControl, efer := t.efer)
            case Vmmcall => t == s.(tlbControl := 0)
            case Unhandled => false
  {
    match exit {
      case Cpuid(rax, rcx, rdx) =>
        LowHalf(s.rax, rax);
        LowHalf(s.rcx, rcx);
        LowHalf(s.rdx, rdx);
      case Hlt(waits) => HltChangesOnly(s.(tlbControl := 0), waits);
      case Ioio(exitinfo1, _) => InfoBits(exitinfo1);
      case Msr(_) =>
        MsrChangesOnly(s.(tlbControl := 0), exit.exitinfo1);
      case _ =>
    }
  }

  lemma {:induction false} HltChangesOnly(s: Vcpu, waits: seq<seq<nat>>)
    ensures !HltLoop(s, waits).Aborted?
    ensures var t := HltLoop(s, waits).s;
            t == s.(vIrq := t.vIrq, vector := t.vector, pending := t.pending, last := t.last)
    decreases |waits|
  {
    if Chosen(s) == None && waits != [] {
      HltChangesOnly(s.(pending := RecordAll(s.pending, waits[0])), waits[1..]);
    }
  }

  /** CPUID aborts on the two subleaf ranges it does not know, and otherwise leaves its results in the low halves. */
  lemma CpuidInFull(s: Vcpu, rax: nat, rcx: nat, rdx: nat)
    ensures var r := Handle(s, Cpuid(rax, rcx, rdx));
            && (r.Aborted? <==> (s.rax == 7 && s.rcx > 2) || (s.rax == 13 && s.rcx != 1))
            && (!r.Aborted? ==> r.s.rax % 0x1_0000_0000 == rax % 0x1_0000_0000
                                && r.s.rcx % 0x1_0000_0000 == rcx % 0x1_0000_0000
                                && r.s.rdx % 0x1_0000_0000 == rdx % 0x1_0000_0000)
  {
    LowHalf(s.rax, rax);
    LowHalf(s.rcx, rcx);
    LowHalf(s.rdx, rdx);
  }

  // ---------------------------------------------------------------- EFER and the TLB

  /** The event ends in a WRMSR to EFER. */
  predicate WritesEfer(e: Event) {
    e.exit == Msr(1) && e.run.rcx == MSR_EFER
  }

  predicate Flushes(e: Event) {
    WritesEfer(e) && EnablesLongModeOrNx(WrittenValue(e.run.rdx, e.run.rax))
  }

  lemma EmptyRun()
    ensures forall s :: Run(s, []) == Resumed(s)
  {
  }

  lemma StepTlb(s: Vcpu, e: Event)
    requires Step(s, e).Resumed?
    ensures Step(s, e).s.tlbControl == if Flushes(e) then 3 else 0
  {
    hide OutputTo, InputFrom;
    if e.exit.Hlt? {
      HltKeepsDevices(Enter(s, e.run).(tlbControl := 0), e.exit.waits);
    }
  }

  /** LME and NXE, bits 8 and 11, come from RAX. */
  lemma FlushBits(rdx: nat, rax: nat)
    ensures EnablesLongModeOrNx(WrittenValue(rdx, rax)) <==> BitOf(rax, 8) == 1 || BitOf(rax, 11) == 1
  {
    Pow2Values();
    assert Pow2(11) == 2 * Pow2(10) == 4 * Pow2(9) == 8 * Pow2(8);
    LowBitsKept(rdx % HALF, rax);
  }

  lemma LowBitsKept(hi: nat, rax: nat)
    ensures (hi * HALF + rax % HALF) / 0x100 % 2 == rax / 0x100 % 2
    ensures (hi * HALF + rax % HALF) / 0x800 % 2 == rax / 0x800 % 2
  {
    var k := hi - rax / HALF;
    ByHalves(hi, rax, k);
    EvenlyMore(rax, 0x80_0000 * k);
    EvenlyMoreAbove(rax, 0x10_0000 * k);
  }

  lemma ByHalves(hi: nat, rax: nat, k: int)
    requires k == hi - rax / HALF
    ensures hi * HALF + rax % HALF == rax + 0x200 * (0x80_0000 * k) == rax + 0x1000 * (0x10_0000 * k)
  {
  }

  lemma EvenlyMore(x: int, j: int)
    ensures (x + 0x200 * j) / 0x100 % 2 == x / 0x100 % 2
  {
    assert (x + 0x200 * j) / 0x100 == x / 0x100 + 2 * j;
  }

  lemma EvenlyMoreAbove(x: int, j: int)
    ensures (x + 0x1000 * j) / 0x800 % 2 == x / 0x800 % 2
  {
    assert (x + 0x1000 * j) / 0x800 == x / 0x800 + 2 * j;
  }

  /**
   * At every VMRUN of a run the TLB is to be flushed exactly if the exit just
   * handled was a WRMSR to EFER with LME or NXE set in EAX.
   */
  lemma TlbFlushTiming(events: seq<Event>)
    requires Run(NewVcpu(), events).Resumed?
    ensures var t := Run(NewVcpu(), events).s;
            && (t.tlbControl == 3 <==>
                  && events != []
                  && var e := events[|events| - 1];
                  && e.exit == Msr(1) && e.run.rcx == 0xC000_0080
                  && (BitOf(e.run.rax, 8) == 1 || BitOf(e.run.rax, 11) == 1))
            && (t.tlbControl == 3 || t.tlbControl == 0)
  {
    hide Run, Step, BitOf, EnablesLongModeOrNx;
    if events == [] {
      assert Run(NewVcpu(), []) == Resumed(NewVcpu()) by { EmptyRun(); }
    } else {
      RunLast(NewVcpu(), events);
      StepTlb(Run(NewVcpu(), events[..|events| - 1]).s, events[|events| - 1]);
      FlushBits(events[|events| - 1].run.rdx, events[|events| - 1].run.rax);
    }
  }

  /** Neither the guest and its hardware nor a WRMSR changes EFER during the events. */
  predicate EferUntouched(s: Vcpu, events: seq<Event>)
    decreases |events|
  {
    events == []
    || (events[0].run.efer == s.efer && !WritesEfer(events[0])
        && (Step(s, events[0]).Resumed? ==> EferUntouched(Step(s, events[0]).s, events[1..])))
  }

  lemma {:induction false} EferStays(s: Vcpu, events: seq<Event>)
    requires EferUntouched(s, events) && Run(s, events).Resumed?
    ensures Run(s, events).s.efer == s.efer
    decreases |events|
  {
    if events != [] {
      var e := events[0];
      if e.exit.Hlt? {
        HltKeepsDevices(Enter(s, e.run).(tlbControl := 0), e.exit.waits);
      }
      EferStays(Step(s, e).s, events[1..]);
    }
  }

  /** A RDMSR of EFER after a WRMSR, any other exits between them, returns the low halves that were written. */
  lemma EferReadsBack(s: Vcpu, w: Event, between: seq<Event>, r: Event)
    requires WritesEfer(w) && r.exit == Msr(0) && r.run.rcx == MSR_EFER
    requires Step(s, w).Resumed? && EferUntouched(Step(s, w).s, between) && Run(Step(s, w).s, between).Resumed?
    requires r.run.efer == Run(Step(s, w).s, between).s.efer
    ensures Step(Run(Step(s, w).s, between).s, r).Resumed?
    ensures var t := Step(Run(Step(s, w).s, between).s, r).s;
            t.rdx % HALF == w.run.rdx % HALF && t.rax % HALF == w.run.rax % HALF
  {
    hide Run, EferUntouched;
    EferStays(Step(s, w).s, between);
    var u := Run(Step(s, w).s, between).s;
    ReadsBackWhatWasWritten(Enter(s, w.run).(tlbControl := 0), Enter(u, r.run).(tlbControl := 0));
  }

  // ---------------------------------------------------------------- a run that loses an interrupt

  /** The guest writes a byte to one of the primary controller's ports, interrupts enabled. */
  function Out(port: nat, byte: nat): Event {
    Event(GuestRun(byte, 0, 0, 0x200, 0x1000, false), Ioio(port * 0x1_0000 + 16, 0))
  }

  lemma OutStep(s: Vcpu, port: nat, byte: nat)
    requires byte < 0x100 && (port == 0x20 || port == 0x21)
    requires WriteChip(s.io.primary, if port == 0x20 then Command(byte) else Data(byte), PRIMARY_ICW3).Some?
    ensures Step(s, Out(port, byte)) ==
              Resumed(Enter(s, Out(port, byte).run).(tlbControl := 0, io := s.io.(primary :=
                WriteChip(s.io.primary, if port == 0x20 then Command(byte) else Data(byte), PRIMARY_ICW3).value)))
  {
    hide WriteChip;
    assert DecodeInfo(port * 0x1_0000 + 16) == IoInfo(false, true, false, false, port);
  }

  /** ICW1 to ICW4 and an open mask. */
  function Initialize(): seq<Event> {
    [Out(0x20, ICW1), Out(0x21, 0x30), Out(0x21, PRIMARY_ICW3), Out(0x21, 1), Out(0x21, 0)]
  }

  lemma {:induction false} RunAppend(s: Vcpu, events: seq<Event>, e: Event)
    requires Run(s, events).Resumed?
    ensures Run(s, events + [e]) == Step(Run(s, events).s, e)
  {
    hide Run, Step;
    RunLast(s, events + [e]);
    assert (events + [e])[..|events|] == events;
  }

  lemma InitializeRuns()
    ensures Run(NewVcpu(), Initialize()).Resumed?
    ensures var s := Run(NewVcpu(), Initialize()).s;
            s.io.primary == Chip(Inited, 0x30, 0) && !s.vIrq && s.pending == NoLines() && s.last == 0
  {
    hide Run, Step;
    var s0 := NewVcpu();
    EmptyRun();
    OutStep(s0, 0x20, ICW1);
    RunAppend(s0, [], Out(0x20, ICW1));
    var e1 := [] + [Out(0x20, ICW1)];
    OutStep(Run(s0, e1).s, 0x21, 0x30);
    RunAppend(s0, e1, Out(0x21, 0x30));
    var e2 := e1 + [Out(0x21, 0x30)];
    OutStep(Run(s0, e2).s, 0x21, PRIMARY_ICW3);
    RunAppend(s0, e2, Out(0x21, PRIMARY_ICW3));
    var e3 := e2 + [Out(0x21, PRIMARY_ICW3)];
    OutStep(Run(s0, e3).s, 0x21, 1);
    RunAppend(s0, e3, Out(0x21, 1));
    var e4 := e3 + [Out(0x21, 1)];
    OutStep(Run(s0, e4).s, 0x21, 0);
    RunAppend(s0, e4, Out(0x21, 0));
    assert e4 + [Out(0x21, 0)] == Initialize();
  }

  lemma NothingMasked(io: GuestIo, i: nat)
    requires io.primary.mask == 0 && i < 8
    ensures Unmasked(io, i)
  {
    ZeroBits(8, i);
  }

  /**
   * The timer interrupt is recorded and injected, the guest halts without having
   * taken it, and another line is injected over it: from the initial state, a
   * run in which a recorded line is never taken and yet no longer held.
   */
  lemma InterruptLostAtHlt() returns (events: seq<Event>)
    ensures exists i :: 0 <= i < |events| && events[i].exit == Intr([PRIMARY_VECTOR_OFFSET])
    ensures forall i | 0 <= i < |events| :: !events[i].run.consumed
    ensures !HeldAfter(Run(NewVcpu(), events), 0)
  {
    hide Run, Step, HeldAfter;
    InitializeRuns();
    var s := Run(NewVcpu(), Initialize()).s;
    var run := GuestRun(0, 0, 0, 0x200, 0x1000, false);
    var timer := Event(run, Intr([PRIMARY_VECTOR_OFFSET]));
    TimerInjected(s, run);
    RunAppend(NewVcpu(), Initialize(), timer);
    var waits := HaltLoses(Step(s, timer).s, run);
    var halt := Event(run, Hlt(waits));
    RunAppend(NewVcpu(), Initialize() + [timer], halt);
    events := Initialize() + [timer] + [halt];
    assert events[5] == timer;
  }

  /** A guest that halts with line 0 in flight and line 4 unmasked. */
  lemma HaltLoses(s: Vcpu, run: GuestRun) returns (waits: seq<seq<nat>>)
    requires s.io.primary == Chip(Inited, 0x30, 0) && s.vIrq && s.last == 0 && s.pending == NoLines()
    requires run.rflags == 0x200 && !run.consumed
    ensures !HeldAfter(Step(s, Event(run, Hlt(waits))), 0)
  {
    hide Unmasked, HltLoop, HeldAfter;
    var u := Enter(s, run).(tlbControl := 0);
    NothingMasked(u.io, 4);
    waits := HltLoses(u);
  }

  lemma TimerInjected(s: Vcpu, run: GuestRun)
    requires s.io.primary == Chip(Inited, 0x30, 0) && !s.vIrq && s.pending == NoLines() && run.rflags == 0x200
    ensures var r := Step(s, Event(run, Intr([PRIMARY_VECTOR_OFFSET])));
            r.Resumed? && r.s.vIrq && r.s.last == 0 && r.s.pending == NoLines() && r.s.io == s.io
  {
    hide IsSet8;
    var s0 := Enter(s, run).(tlbControl := 0);
    var vectors := [PRIMARY_VECTOR_OFFSET];
    assert RecordAll(s0.pending, vectors) == NoLines()[0 := true] by {
      assert vectors[1..] == [];
    }
    var u := s0.(pending := NoLines()[0 := true]);
    NothingMasked(u.io, 0);
    assert Deliverable(u, 0) && Chosen(u) == Some(0);
    assert NoLines()[0 := true][0 := false] == NoLines();
  }
}

/**
 * Port I/O exits (ymirc/arch/x86/svm_ioio.c): the two emulated 8259 interrupt
 * controllers, the first serial port, and the ports that are ignored.
 */
module SvmIoio {
  import opened Bits
  import opened VcpuState
  import opened Wrappers

  /** The parts of EXITINFO1 that are used, by their bit positions. */
  datatype IoInfo = IoInfo(isIn: bool, sz8: bool, sz16: bool, sz32: bool, port: nat)

  function DecodeInfo(exitinfo1: nat): IoInfo {
    IoInfo(exitinfo1 % 2 == 1, exitinfo1 / 16 % 2 == 1, exitinfo1 / 32 % 2 == 1, exitinfo1 / 64 % 2 == 1,
           exitinfo1 / 0x1_0000 % 0x1_0000)
  }

  /** By bit number, as section 15.10.2 of the AMD64 manual lays the field out. */
  lemma InfoBits(exitinfo1: nat)
    ensures var info := DecodeInfo(exitinfo1);
            && (info.isIn <==> BitOf(exitinfo1, 0) == 1) && (info.sz8 <==> BitOf(exitinfo1, 4) == 1)
            && (info.sz16 <==> BitOf(exitinfo1, 5) == 1) && (info.sz32 <==> BitOf(exitinfo1, 6) == 1)
  {
    assert Pow2(4) == 16 && Pow2(5) == 32 && Pow2(6) == 64;
  }

  // ---------------------------------------------------------------- one controller

  /** A write to a controller: to its command or to its data port. */
  datatype ChipWrite = Command(dx: nat) | Data(dx: nat)

  const ICW1 := 0x11

  /** What a write does to a controller; None is svm_vcpu_abort. `icw3` is the cascade byte it accepts. */
  function WriteChip(c: Chip, w: ChipWrite, icw3: nat): Option<Chip> {
    match w
    case Command(dx) =>
      if dx == ICW1 then Some(c.(phase := Phase1))
      else if 0x60 <= dx <= 0x67 then Some(c)
      else None
    case Data(dx) =>
      match c.phase
      case Uninitialized => Some(c.(mask := dx))
      case Inited => Some(c.(mask := dx))
      case Phase1 => Some(c.(base := dx, phase := Phase2))
      case Phase2 => if dx == icw3 then Some(c.(phase := Phase3)) else None
      case Phase3 => Some(c.(phase := Inited))
  }

  const PRIMARY_ICW3 := 4
  const SECONDARY_ICW3 := 2

  /** A controller after a history of its own writes. */
  function Fold(ws: seq<ChipWrite>, icw3: nat): Option<Chip> {
    if ws == [] then Some(NewChip())
    else
      match Fold(ws[..|ws| - 1], icw3)
      case None => None
      case Some(c) => WriteChip(c, ws[|ws| - 1], icw3)
  }

  // ---------------------------------------------------------------- the history, independently

  /** The bytes written to the data port. */
  function DataBytes(ws: seq<ChipWrite>): seq<nat> {
    if ws == [] then []
    else DataBytes(ws[..|ws| - 1]) + match ws[|ws| - 1] case Command(_) => [] case Data(dx) => [dx]
  }

  predicate NoIcw1(ws: seq<ChipWrite>) {
    forall i | 0 <= i < |ws| :: ws[i] != Command(ICW1)
  }

  /**
   * Since the last ICW1 the first data byte is ICW2, the second ICW3, the third
   * ICW4, and every later one OCW1.
   */
  ghost predicate MatchesHistory(before: Chip, data: seq<nat>, icw3: nat, c: Chip) {
    && c.phase == (if |data| == 0 then Phase1 else if |data| == 1 then Phase2
                   else if |data| == 2 then Phase3 else Inited)
    && c.base == (if |data| == 0 then before.base else data[0])
    && (|data| >= 2 ==> data[1] == icw3)
    && c.mask == (if |data| <= 3 then before.mask else data[|data| - 1])
  }

  /** The controller's state is a function of the writes since its last ICW1, and of what that ICW1 found. */
  lemma {:induction false} FoldAfterIcw1(pre: seq<ChipWrite>, tail: seq<ChipWrite>, icw3: nat)
    requires NoIcw1(tail) && Fold(pre + [Command(ICW1)] + tail, icw3).Some?
    ensures Fold(pre, icw3).Some?
    ensures MatchesHistory(Fold(pre, icw3).value, DataBytes(tail), icw3, Fold(pre + [Command(ICW1)] + tail, icw3).value)
  {
    var ws := pre + [Command(ICW1)] + tail;
    if tail == [] {
      assert ws[..|ws| - 1] == pre;
    } else {
      var rest := tail[..|tail| - 1];
      assert ws[..|ws| - 1] == pre + [Command(ICW1)] + rest;
      assert ws[|ws| - 1] == tail[|tail| - 1];
      FoldAfterIcw1(pre, rest, icw3);
    }
  }

  /** Without an ICW1 the data port only ever sets the mask. */
  lemma {:induction false} FoldWithoutIcw1(ws: seq<ChipWrite>, icw3: nat)
    requires NoIcw1(ws) && Fold(ws, icw3).Some?
    ensures var data := DataBytes(ws);
            Fold(ws, icw3) == Some(Chip(Uninitialized, 0, if data == [] then 0xFF else data[|data| - 1]))
  {
    if ws != [] {
      FoldWithoutIcw1(ws[..|ws| - 1], icw3);
    }
  }

  /** A history splits at its last ICW1, if it has one. */
  lemma {:induction false} SplitAtIcw1(ws: seq<ChipWrite>)
    returns (found: bool, pre: seq<ChipWrite>, tail: seq<ChipWrite>)
    ensures found ==> ws == pre + [Command(ICW1)] + tail && NoIcw1(tail)
    ensures !found ==> NoIcw1(ws)
  {
    if ws == [] {
      return false, [], [];
    }
    var last := ws[|ws| - 1];
    if last == Command(ICW1) {
      assert ws == ws[..|ws| - 1] + [Command(ICW1)] + [];
      return true, ws[..|ws| - 1], [];
    }
    found, pre, tail := SplitAtIcw1(ws[..|ws| - 1]);
    if found {
      assert ws == ws[..|ws| - 1] + [last] == pre + [Command(ICW1)] + (tail + [last]);
      tail := tail + [last];
    }
  }

  /** INITED is reached only through an ICW1 followed by ICW2, a valid ICW3 and ICW4; the base is that ICW2. */
  lemma InitedMeansSequence(ws: seq<ChipWrite>, icw3: nat) returns (pre: seq<ChipWrite>, tail: seq<ChipWrite>)
    requires Fold(ws, icw3).Some? && Fold(ws, icw3).value.phase == Inited
    ensures ws == pre + [Command(ICW1)] + tail && NoIcw1(tail) && |DataBytes(tail)| >= 3
    ensures DataBytes(tail)[1] == icw3 && Fold(ws, icw3).value.base == DataBytes(tail)[0]
  {
    var found;
    found, pre, tail := SplitAtIcw1(ws);
    if found {
      FoldAfterIcw1(pre, tail, icw3);
    } else {
      FoldWithoutIcw1(ws, icw3);
    }
  }

  /** How many data bytes follow the last ICW1, if there is one. */
  function SinceIcw1(ws: seq<ChipWrite>): Option<nat> {
    if ws == [] then None
    else
      var before := SinceIcw1(ws[..|ws| - 1]);
      match ws[|ws| - 1]
      case Command(dx) => if dx == ICW1 then Some(0) else before
      case Data(_) => if before == None then None else Some(before.value + 1)
  }

  /** The last data byte that no initialization sequence claimed, or the reset value of the mask. */
  function LastOcw1(ws: seq<ChipWrite>): nat {
    if ws == [] then 0xFF
    else
      var before := ws[..|ws| - 1];
      if ws[|ws| - 1].Data? && (SinceIcw1(before) == None || SinceIcw1(before).value >= 3) then ws[|ws| - 1].dx
      else LastOcw1(before)
  }

  /** The mask is the last OCW1 of the whole history: initialization sequences do not touch it. */
  lemma {:induction false} MaskIsLastOcw1(ws: seq<ChipWrite>, icw3: nat)
    requires Fold(ws, icw3).Some?
    ensures Fold(ws, icw3).value.mask == LastOcw1(ws)
    ensures var n := SinceIcw1(ws);
            Fold(ws, icw3).value.phase == if n == None then Uninitialized else
                                          if n.value == 0 then Phase1 else
                                          if n.value == 1 then Phase2 else
                                          if n.value == 2 then Phase3 else Inited
  {
    if ws != [] {
      MaskIsLastOcw1(ws[..|ws| - 1], icw3);
    }
  }

  /** A write the controllers do not know: a strange command, or the wrong byte for ICW3. */
  predicate RefusedAt(ws: seq<ChipWrite>, i: nat, icw3: nat)
    requires i < |ws|
  {
    match ws[i]
    case Command(dx) => dx != 0x11 && !(0x60 <= dx <= 0x67)
    case Data(dx) => SinceIcw1(ws[..i]) == Some(1) && dx != icw3
  }

  /** A history is accepted if and only if none of its writes is such a one. */
  lemma {:induction false} AcceptedExactly(ws: seq<ChipWrite>, icw3: nat)
    ensures Fold(ws, icw3) == None <==> exists i :: 0 <= i < |ws| && RefusedAt(ws, i, icw3)
  {
    if ws != [] {
      var before, n := ws[..|ws| - 1], |ws| - 1;
      AcceptedExactly(before, icw3);
      forall i | 0 <= i < n
        ensures RefusedAt(before, i, icw3) <==> RefusedAt(ws, i, icw3)
      {
        assert before[..i] == ws[..i];
      }
      assert ws[..n] == before;
      if Fold(before, icw3).Some? {
        MaskIsLastOcw1(before, icw3);
        assert Fold(ws, icw3) == None <==> RefusedAt(ws, n, icw3);
      }
    }
  }

  /** The data byte that followed the last ICW1 first, or the reset value of the vector offset. */
  function LastIcw2(ws: seq<ChipWrite>): nat {
    if ws == [] then 0
    else
      var before := ws[..|ws| - 1];
      if ws[|ws| - 1].Data? && SinceIcw1(before) == Some(0) then ws[|ws| - 1].dx else LastIcw2(before)
  }

  lemma {:induction false} BaseIsLastIcw2(ws: seq<ChipWrite>, icw3: nat)
    requires Fold(ws, icw3).Some?
    ensures Fold(ws, icw3).value.base == LastIcw2(ws)
  {
    if ws != [] {
      BaseIsLastIcw2(ws[..|ws| - 1], icw3);
      MaskIsLastOcw1(ws[..|ws| - 1], icw3);
    }
  }

  // ---------------------------------------------------------------- the handlers

  /** handle_pic_in. */
  method HandlePicIn(v: SvmVcpu, info: IoInfo) returns (aborted: bool)
    modifies v`rax
    ensures aborted <==> !info.sz8 || !Readable(v.guestIo, info.port)
    ensures !aborted ==> v.rax == if info.port == 0x21 then v.guestIo.primary.mask else v.guestIo.secondary.mask
    ensures aborted ==> v.rax == old(v.rax)
  {
    if !info.sz8 {
      return true;
    }
    match info.port {
      case 0x21 =>
        if v.guestIo.primary.phase == Uninitialized || v.guestIo.primary.phase == Inited {
          v.rax := v.guestIo.primary.mask;
          return false;
        }
      case 0xA1 =>
        if v.guestIo.secondary.phase == Uninitialized || v.guestIo.secondary.phase == Inited {
          v.rax := v.guestIo.secondary.mask;
          return false;
        }
      case _ =>
    }
    return true;
  }

  /** A data port can be read outside the initialization sequence. */
  predicate Readable(io: GuestIo, port: nat) {
    || (port == 0x21 && (io.primary.phase == Uninitialized || io.primary.phase == Inited))
    || (port == 0xA1 && (io.secondary.phase == Uninitialized || io.secondary.phase == Inited))
  }

  /** The writes of a port output to one of the controllers. */
  function ChipWrites(info: IoInfo, dx: nat, secondary: bool): seq<ChipWrite> {
    if info.isIn then []
    else if info.port == (if secondary then 0xA0 else 0x20) then [Command(dx)]
    else if info.port == (if secondary then 0xA1 else 0x21) then [Data(dx)]
    else []
  }

  function Apply(c: Chip, ws: seq<ChipWrite>, icw3: nat): Option<Chip>
    requires |ws| <= 1
  {
    if ws == [] then Some(c) else WriteChip(c, ws[0], icw3)
  }

  predicate IsPicPort(port: nat) {
    port == 0x20 || port == 0x21 || port == 0xA0 || port == 0xA1
  }

  /** handle_pic_out: each controller sees its own write and nothing of the other's. */
  method HandlePicOut(v: SvmVcpu, info: IoInfo) returns (aborted: bool)
    requires !info.isIn && IsPicPort(info.port)
    modifies v`guestIo
    ensures var dx := v.rax % 0x100;
            var p := Apply(old(v.guestIo.primary), ChipWrites(info, dx, false), PRIMARY_ICW3);
            var s := Apply(old(v.guestIo.secondary), ChipWrites(info, dx, true), SECONDARY_ICW3);
            && (aborted <==> !info.sz8 || p == None || s == None)
            && (!aborted ==> v.guestIo == old(v.guestIo).(primary := p.value, secondary := s.value))
    ensures aborted ==> v.guestIo == old(v.guestIo)
  {
    var dx, io := v.rax % 0x100, v.guestIo;
    if !info.sz8 {
      return true;
    }
    aborted := false;
    match info.port {
      case 0x20 =>
        if dx == ICW1 {
          v.guestIo := io.(primary := io.primary.(phase := Phase1));
        } else if !(0x60 <= dx <= 0x67) {
          aborted := true;
        }
      case 0x21 =>
        match io.primary.phase {
          case Uninitialized => v.guestIo := io.(primary := io.primary.(mask := dx));
          case Inited => v.guestIo := io.(primary := io.primary.(mask := dx));
          case Phase1 => v.guestIo := io.(primary := io.primary.(base := dx, phase := Phase2));
          case Phase2 =>
            if dx != PRIMARY_ICW3 {
              aborted := true;
            } else {
              v.guestIo := io.(primary := io.primary.(phase := Phase3));
            }
          case Phase3 => v.guestIo := io.(primary := io.primary.(phase := Inited));
        }
      case 0xA0 =>
        if dx == ICW1 {
          v.guestIo := io.(secondary := io.secondary.(phase := Phase1));
        } else if !(0x60 <= dx <= 0x67) {
          aborted := true;
        }
      case _ =>
        match io.secondary.phase {
          case Uninitialized => v.guestIo := io.(secondary := io.secondary.(mask := dx));
          case Inited => v.guestIo := io.(secondary := io.secondary.(mask := dx));
          case Phase1 => v.guestIo := io.(secondary := io.secondary.(base := dx, phase := Phase2));
          case Phase2 =>
            if dx != SECONDARY_ICW3 {
              aborted := true;
            } else {
              v.guestIo := io.(secondary := io.secondary.(phase := Phase3));
            }
          case Phase3 => v.guestIo := io.(secondary := io.secondary.(phase := Inited));
        }
    }
  }

  // ---------------------------------------------------------------- port dispatch

  /** Ports whose input is ignored, reads as 0, or comes from the hardware; the rest aborts. */
  datatype InEffect = Ignored | ReadsZero | PassThrough | ReadsIer | ReadsMcr | PicIn | InAborts

  function InputOf(info: IoInfo): InEffect {
    var p := info.port;
    if 0x20 <= p <= 0x21 || 0xA0 <= p <= 0xA1 then PicIn
    else if 0x40 <= p <= 0x47 then if info.sz8 || info.sz16 || info.sz32 then PassThrough else Ignored
    else if 0x60 <= p <= 0x64 || 0x70 <= p <= 0x71 || 0x3B0 <= p <= 0x3DF || 0xCF8 <= p <= 0xCFF then ReadsZero
    else if 0x80 <= p <= 0x8F || 0x2E8 <= p <= 0x2EF || 0x2F8 <= p <= 0x2FF || 0x3E8 <= p <= 0x3EF
        || 0xC000 <= p <= 0xCFFF then Ignored
    else if p == 0x3F8 || p == 0x3FA || p == 0x3FD || p == 0x3FE then PassThrough
    else if p == 0x3F9 then ReadsIer
    else if p == 0x3FC then ReadsMcr
    else if p == 0x3FB || p == 0x3FF then ReadsZero
    else InAborts
  }

  /** RAX after an input; None is svm_vcpu_abort. */
  function InputFrom(io: GuestIo, info: IoInfo, hw: nat, rax: nat): Option<nat> {
    match InputOf(info)
    case Ignored => Some(rax)
    case ReadsZero => Some(0)
    case PassThrough => Some(hw)
    case ReadsIer => Some(io.ier)
    case ReadsMcr => Some(io.mcr)
    case PicIn =>
      if !info.sz8 || !Readable(io, info.port) then None
      else Some(if info.port == 0x21 then io.primary.mask else io.secondary.mask)
    case InAborts => None
  }

  /**
   * What probing the absent devices finds: keyboard controller, clock, display
   * and PCI configuration read as 0, as do the line control and scratch registers;
   * the other serial ports, the delay ports and the PCI window leave RAX alone.
   */
  lemma ProbesFind(io: GuestIo, info: IoInfo, hw: nat, rax: nat)
    ensures var p := info.port;
            0x60 <= p <= 0x64 || p in {0x70, 0x71, 0x3FB, 0x3FF} || 0x3B0 <= p <= 0x3DF || 0xCF8 <= p <= 0xCFF ==>
              InputFrom(io, info, hw, rax) == Some(0)
    ensures var p := info.port;
            p / 16 == 8 || p / 8 in {0x2E8 / 8, 0x2F8 / 8, 0x3E8 / 8} || p / 0x1000 == 0xC ==>
              InputFrom(io, info, hw, rax) == Some(rax)
    ensures var p := info.port;
            p in {0x3F8, 0x3FA, 0x3FD, 0x3FE} || (p / 8 == 8 && (info.sz8 || info.sz16 || info.sz32)) ==>
              InputFrom(io, info, hw, rax) == Some(hw)
  {
  }

  /** handle_serial_in. */
  method HandleSerialIn(v: SvmVcpu, info: IoInfo, hw: nat)
    requires 0x3F8 <= info.port <= 0x3FF
    modifies v`rax
    ensures InputFrom(v.guestIo, info, hw, old(v.rax)) == Some(v.rax)
  {
    match info.port {
      case 0x3F8 => v.rax := hw;
      case 0x3F9 => v.rax := v.guestIo.ier;
      case 0x3FA => v.rax := hw;
      case 0x3FB => v.rax := 0;
      case 0x3FC => v.rax := v.guestIo.mcr;
      case 0x3FD => v.rax := hw;
      case 0x3FE => v.rax := hw;
      case _ => v.rax := 0;
    }
  }

  /** handle_ioio_in; `hw` is what the hardware port would return where the access is passed through. */
  method HandleIoioIn(v: SvmVcpu, info: IoInfo, hw: nat) returns (aborted: bool)
    modifies v`rax
    ensures aborted <==> InputFrom(v.guestIo, info, hw, old(v.rax)) == None
    ensures v.rax == if aborted then old(v.rax) else InputFrom(v.guestIo, info, hw, old(v.rax)).value
  {
    aborted := false;
    var port := info.port;
    if 0x20 <= port <= 0x21 {
      aborted := HandlePicIn(v, info);
    } else if 0x40 <= port <= 0x47 {
      if info.sz8 || info.sz16 || info.sz32 {
        v.rax := hw;
      }
    } else if 0x60 <= port <= 0x64 || 0x70 <= port <= 0x71 {
      v.rax := 0;
    } else if 0x80 <= port <= 0x8F {
      return;
    } else if 0xA0 <= port <= 0xA1 {
      aborted := HandlePicIn(v, info);
    } else if 0x2E8 <= port <= 0x2EF || 0x2F8 <= port <= 0x2FF {
      return;
    } else if 0x3B0 <= port <= 0x3DF {
      v.rax := 0;
    } else if 0x3E8 <= port <= 0x3EF {
      return;
    } else if 0x3F8 <= port <= 0x3FF {
      HandleSerialIn(v, info, hw);
    } else if 0xC000 <= port <= 0xCFFF {
      return;
    } else if 0xCF8 <= port <= 0xCFF {
      v.rax := 0;
    } else {
      aborted := true;
    }
  }

  /** Output ports other than the controllers' that the source accepts. */
  predicate OutputAccepted(p: nat) {
    || 0x40 <= p <= 0x47 || 0x60 <= p <= 0x64 || 0x70 <= p <= 0x71 || 0x80 <= p <= 0x8F
    || 0x2E8 <= p <= 0x2EF || 0x2F8 <= p <= 0x2FF || 0x3B0 <= p <= 0x3DF || 0x3E8 <= p <= 0x3EF
    || 0x3F8 <= p <= 0x3FC || p == 0x3FF || 0xC000 <= p <= 0xCFFF || 0xCF8 <= p <= 0xCFF
  }

  /** Input and output agree on the ports they know, but for the two status ports that can only be read. */
  lemma SamePortsBothWays(info: IoInfo)
    ensures InputOf(info) == InAborts
            <==> !OutputAccepted(info.port) && !IsPicPort(info.port) && info.port != 0x3FD && info.port != 0x3FE
    ensures InputOf(info) == PicIn <==> IsPicPort(info.port)
    ensures InputOf(info) == ReadsIer <==> info.port == 0x3F9
    ensures InputOf(info) == ReadsMcr <==> info.port == 0x3FC
    ensures InputOf(info) == PassThrough
            <==> || (info.port / 8 == 0x40 / 8 && (info.sz8 || info.sz16 || info.sz32))
                 || info.port in {0x3F8, 0x3FA, 0x3FD, 0x3FE}
  {
  }

  /** The emulated state after an output; None is svm_vcpu_abort. */
  function OutputTo(io: GuestIo, info: IoInfo, rax: nat): Option<GuestIo> {
    var dx := rax % 0x100;
    if IsPicPort(info.port) then
      var p := Apply(io.primary, ChipWrites(info.(isIn := false), dx, false), PRIMARY_ICW3);
      var s := Apply(io.secondary, ChipWrites(info.(isIn := false), dx, true), SECONDARY_ICW3);
      if !info.sz8 || p == None || s == None then None else Some(io.(primary := p.value, secondary := s.value))
    else if info.port == 0x3F9 then Some(io.(ier := dx))
    else if info.port == 0x3FC then Some(io.(mcr := dx))
    else if OutputAccepted(info.port) then Some(io)
    else None
  }

  /** handle_serial_out; what is transmitted is not part of the state. */
  method HandleSerialOut(v: SvmVcpu, info: IoInfo) returns (aborted: bool)
    requires 0x3F8 <= info.port <= 0x3FF
    modifies v`guestIo
    ensures aborted <==> OutputTo(old(v.guestIo), info, v.rax) == None
    ensures v.guestIo == if aborted then old(v.guestIo) else OutputTo(old(v.guestIo), info, v.rax).value
  {
    aborted := false;
    match info.port {
      case 0x3F8 =>
      case 0x3F9 => v.guestIo := v.guestIo.(ier := v.rax % 0x100);
      case 0x3FA =>
      case 0x3FB =>
      case 0x3FC => v.guestIo := v.guestIo.(mcr := v.rax % 0x100);
      case 0x3FF =>
      case _ => aborted := true;
    }
  }

  /** handle_ioio_out. */
  method HandleIoioOut(v: SvmVcpu, info: IoInfo) returns (aborted: bool)
    requires !info.isIn
    modifies v`guestIo
    ensures aborted <==> OutputTo(old(v.guestIo), info, v.rax) == None
    ensures v.guestIo == if aborted then old(v.guestIo) else OutputTo(old(v.guestIo), info, v.rax).value
  {
    var port := info.port;
    aborted := false;
    if 0x20 <= port <= 0x21 || 0xA0 <= port <= 0xA1 {
      aborted := HandlePicOut(v, info);
    } else if 0x3F8 <= port <= 0x3FF {
      aborted := HandleSerialOut(v, info);
    } else if 0x40 <= port <= 0x47 || 0x60 <= port <= 0x64 || 0x70 <= port <= 0x71 || 0x80 <= port <= 0x8F {
      return;
    } else if 0x2E8 <= port <= 0x2EF || 0x2F8 <= port <= 0x2FF || 0x3B0 <= port <= 0x3DF || 0x3E8 <= port <= 0x3EF {
      return;
    } else if !(0xC000 <= port <= 0xCFFF || 0xCF8 <= port <= 0xCFF) {
      aborted := true;
    }
  }
}

/**
 * The Linux boot parameters (ymirc/linux.h): a 4096-byte record copied from the
 * image, with fields stored into it little-endian. Offsets are those of the
 * packed structures, which are the ones of the Linux x86 boot protocol.
 */
module BootParameters {
  import opened Bits
  import opened Memory
  import opened Bytes

  const BOOT_PARAMS_SIZE := 0x1000

  const E820_ENTRIES := 0x1E8
  const SETUP_SECTS := 0x1F1
  const VID_MODE := 0x1FA
  const TYPE_OF_LOADER := 0x210
  const LOADFLAGS := 0x211
  const RAMDISK_IMAGE := 0x218
  const RAMDISK_SIZE := 0x21C
  const HEAP_END_PTR := 0x224
  const EXT_LOADER_VER := 0x226
  const CMD_LINE_PTR := 0x228
  const INITRD_ADDR_MAX := 0x22C
  const CMDLINE_SIZE := 0x238
  const E820_MAP := 0x2D0
  const E820_ENTRY_SIZE := 20
  const E820MAX := 128
  const E820_TYPE_RAM := 1

  // ---------------------------------------------------------------- little-endian fields

  function Le(v: nat, n: nat): (bs: seq<Octet>)
    ensures |bs| == n
  {
    if n == 0 then [] else [OctetOf(v)] + Le(v / 0x100, n - 1)
  }

  function FieldValue(bs: seq<Octet>): nat {
    if bs == [] then 0 else Value(bs[0]) + 0x100 * FieldValue(bs[1..])
  }

  lemma LowBit(v: nat, k: nat)
    requires k > 0
    ensures Value(BitsOf(v, k)) == v % 2 + 2 * Value(BitsOf(v / 2, k - 1))
  {
    assert BitsOf(v, k)[1..] == BitsOf(v / 2, k - 1);
  }

  lemma LowFourBits(v: nat, k: nat)
    requires k >= 4
    ensures Value(BitsOf(v, k)) == v % 16 + 16 * Value(BitsOf(v / 16, k - 4))
  {
    hide Value, BitsOf;
    LowBit(v, k);
    LowBit(v / 2, k - 1);
    LowBit(v / 2 / 2, k - 2);
    LowBit(v / 2 / 2 / 2, k - 3);
    assert v / 2 / 2 / 2 / 2 == v / 16;
  }

  lemma NoBits(v: nat)
    ensures Value(BitsOf(v, 0)) == 0
  {
  }

  /** An unsigned char keeps a number's remainder. */
  lemma OctetValue(v: nat)
    ensures Value(OctetOf(v)) == v % 0x100
  {
    hide Value, BitsOf;
    LowFourBits(v, 8);
    LowFourBits(v / 16, 4);
    NoBits(v / 16 / 16);
  }

  /** A stored field reads back. */
  lemma {:induction false} FieldReadsBack(v: nat, n: nat)
    requires v < Pow2(8 * n)
    ensures FieldValue(Le(v, n)) == v
  {
    if n > 0 {
      Pow2By8(8 * (n - 1));
      OctetValue(v);
      FieldReadsBack(v / 0x100, n - 1);
    }
  }

  /** The bytes of a word from the i-th on. */
  function BytesFrom(m: Words, k: nat, i: nat): seq<Octet>
    requires i <= 8
    decreases 8 - i
  {
    if i == 8 then [] else [ByteAt(m, 8 * k + i)] + BytesFrom(m, k, i + 1)
  }

  /** Memory is little-endian: a word is the number its bytes spell, lowest address first. */
  lemma WordIsItsBytes(m: Words, k: nat)
    ensures FieldValue(BytesFrom(m, k, 0)) == Value(At(m, k))
  {
    hide Value, FieldValue, BytesFrom, At;
    BytesSpell(m, k, 0);
    assert At(m, k)[0..] == At(m, k);
  }

  lemma {:induction false} BytesSpell(m: Words, k: nat, i: nat)
    requires i <= 8
    ensures FieldValue(BytesFrom(m, k, i)) == Value(At(m, k)[8 * i..])
    decreases 8 - i
  {
    hide Value, At, Pow2;
    if i == 8 {
      assert At(m, k)[64..] == [];
      assert Value([]) == 0 by { NoBits(0); }
    } else {
      var w := At(m, k);
      BytesSpell(m, k, i + 1);
      assert BytesFrom(m, k, i)[1..] == BytesFrom(m, k, i + 1);
      assert (8 * k + i) / 8 == k && (8 * k + i) % 8 == i;
      assert w[8 * i..] == w[8 * i..8 * i + 8] + w[8 * (i + 1)..];
      ValueOfJoined(w[8 * i..8 * i + 8], w[8 * (i + 1)..]);
      Pow2Values();
    }
  }

  lemma {:induction false} ValueOfJoined(a: seq<bool>, b: seq<bool>)
    ensures Value(a + b) == Value(a) + Pow2(|a|) * Value(b)
  {
    hide Value, Pow2;
    if a == [] {
      assert a + b == b;
      NoBits(0);
      assert Pow2(0) == 1 by { Pow2OfZero(); }
    } else {
      ValueOfJoined(a[1..], b);
      assert (a + b)[1..] == a[1..] + b;
      ValueByHead(a + b);
      ValueByHead(a);
      Doubled(Pow2(|a| - 1), Value(b));
      assert Pow2(|a|) == 2 * Pow2(|a| - 1) by { Pow2Doubles(|a| - 1); }
    }
  }

  lemma ValueByHead(bits: seq<bool>)
    requires bits != []
    ensures Value(bits) == (if bits[0] then 1 else 0) + 2 * Value(bits[1..])
  {
  }

  lemma Pow2Doubles(n: nat)
    ensures Pow2(n + 1) == 2 * Pow2(n)
  {
  }

  lemma Doubled(p: nat, v: nat)
    ensures 2 * (p * v) == 2 * p * v
  {
  }

  // ---------------------------------------------------------------- stores into the record

  /** What a store puts into the record: a number of so many bytes, or a byte of flags. */
  datatype Stored = Number(size: nat, value: nat) | Flags(octet: Octet)

  function BytesOf(f: Stored): (bs: seq<Octet>)
    ensures |bs| == SizeOf(f)
  {
    match f
    case Number(size, value) => Le(value, size)
    case Flags(octet) => [octet]
  }

  function SizeOf(f: Stored): nat {
    match f
    case Number(size, _) => size
    case Flags(_) => 1
  }

  ghost predicate CoveredBy(fields: map<nat, Stored>, k: nat) {
    exists o | o in fields :: o <= k < o + SizeOf(fields[o])
  }

  /** The record is the original one with these fields stored, and nothing else changed. */
  ghost predicate Patched(raw: seq<Octet>, bytes: seq<Octet>, fields: map<nat, Stored>) {
    |raw| == |bytes| == BOOT_PARAMS_SIZE && FieldsHold(bytes, fields) && RestKept(raw, bytes, fields)
  }

  /** Each field lies in the record and holds its bytes. */
  ghost predicate FieldsHold(bytes: seq<Octet>, fields: map<nat, Stored>)
    requires |bytes| == BOOT_PARAMS_SIZE
  {
    forall o | o in fields :: FieldHolds(bytes, o, fields[o])
  }

  ghost predicate FieldHolds(bytes: seq<Octet>, o: nat, f: Stored)
    requires |bytes| == BOOT_PARAMS_SIZE
  {
    o + SizeOf(f) <= BOOT_PARAMS_SIZE && forall i | 0 <= i < SizeOf(f) :: bytes[o + i] == BytesOf(f)[i]
  }

  ghost predicate RestKept(raw: seq<Octet>, bytes: seq<Octet>, fields: map<nat, Stored>)
    requires |raw| == |bytes| == BOOT_PARAMS_SIZE
  {
    forall k | 0 <= k < BOOT_PARAMS_SIZE && !CoveredBy(fields, k) :: bytes[k] == raw[k]
  }

  /** The field is inside the record and does not overlap another one. */
  ghost predicate Fits(fields: map<nat, Stored>, off: nat, n: nat) {
    && n > 0 && off + n <= BOOT_PARAMS_SIZE
    && forall o | o in fields :: (o == off && SizeOf(fields[o]) == n) || o + SizeOf(fields[o]) <= off || off + n <= o
  }

  /** memcpy or a field store inside the record. */
  function Spliced(bytes: seq<Octet>, off: nat, val: seq<Octet>): (r: seq<Octet>)
    requires off + |val| <= |bytes|
    ensures |r| == |bytes|
    ensures forall k | 0 <= k < |bytes| :: r[k] == if off <= k < off + |val| then val[k - off] else bytes[k]
  {
    bytes[..off] + val + bytes[off + |val|..]
  }

  /** The stored field holds its bytes. */
  lemma NewFieldHolds(bytes: seq<Octet>, off: nat, val: Stored)
    requires |bytes| == BOOT_PARAMS_SIZE && off + SizeOf(val) <= BOOT_PARAMS_SIZE
    ensures FieldHolds(Spliced(bytes, off, BytesOf(val)), off, val)
  {
    hide BytesOf, Spliced;
  }

  /** A field elsewhere keeps its own. */
  lemma OldFieldHolds(bytes: seq<Octet>, off: nat, val: Stored, o: nat, f: Stored)
    requires |bytes| == BOOT_PARAMS_SIZE && off + SizeOf(val) <= BOOT_PARAMS_SIZE && FieldHolds(bytes, o, f)
    requires o + SizeOf(f) <= off || off + SizeOf(val) <= o
    ensures FieldHolds(Spliced(bytes, off, BytesOf(val)), o, f)
  {
    hide BytesOf, Spliced;
  }

  lemma RestStaysKept(raw: seq<Octet>, bytes: seq<Octet>, fields: map<nat, Stored>, off: nat, val: Stored)
    requires |raw| == |bytes| == BOOT_PARAMS_SIZE && RestKept(raw, bytes, fields) && Fits(fields, off, SizeOf(val))
    ensures RestKept(raw, Spliced(bytes, off, BytesOf(val)), fields[off := val])
  {
    hide BytesOf, Spliced, CoveredBy;
    var bytes' := Spliced(bytes, off, BytesOf(val));
    forall k | 0 <= k < BOOT_PARAMS_SIZE && !CoveredBy(fields[off := val], k)
      ensures bytes'[k] == raw[k]
    {
      CoverGrows(fields, off, val, k);
    }
  }

  lemma FieldStored(raw: seq<Octet>, bytes: seq<Octet>, fields: map<nat, Stored>, off: nat, val: Stored)
    requires Patched(raw, bytes, fields) && Fits(fields, off, SizeOf(val))
    ensures Patched(raw, Spliced(bytes, off, BytesOf(val)), fields[off := val])
  {
    hide BytesOf, Spliced, RestKept, FieldHolds;
    RestStaysKept(raw, bytes, fields, off, val);
    NewFieldHolds(bytes, off, val);
    forall o | o in fields && o != off
      ensures FieldHolds(Spliced(bytes, off, BytesOf(val)), o, fields[o])
    {
      OldFieldHolds(bytes, off, val, o, fields[o]);
    }
  }

  lemma CoverGrows(fields: map<nat, Stored>, off: nat, val: Stored, k: nat)
    requires Fits(fields, off, SizeOf(val))
    ensures CoveredBy(fields[off := val], k) <==> CoveredBy(fields, k) || off <= k < off + SizeOf(val)
  {
    var fields' := fields[off := val];
    assert off in fields';
    if CoveredBy(fields, k) {
      var o :| o in fields && o <= k < o + SizeOf(fields[o]);
      assert o in fields' && SizeOf(fields'[o]) == SizeOf(fields[o]);
    }
  }

  class BootParams {
    var bytes: seq<Octet>
    ghost const raw: seq<Octet>
    ghost var fields: map<nat, Stored>

    ghost predicate Valid()
      reads this
    {
      |bytes| == |raw| == BOOT_PARAMS_SIZE && Patched(raw, bytes, fields)
    }

    /** bootparams_from_bzimage. It does not replace setup_sects = 0 by 4, unlike setupheader_from_bzimage. */
    constructor (image: seq<Octet>)
      requires |image| == BOOT_PARAMS_SIZE
      ensures Valid() && raw == image && fields == map[]
    {
      bytes, raw, fields := image, image, map[];
    }

    method Set(off: nat, val: Stored)
      requires Valid() && Fits(fields, off, SizeOf(val))
      modifies this
      ensures Valid() && fields == old(fields)[off := val]
    {
      FieldStored(raw, bytes, fields, off, val);
      bytes := Spliced(bytes, off, BytesOf(val));
      fields := fields[off := val];
    }

    /** bootparams_add_e820_entry, as entry n. */
    method AddE820Entry(addr: nat, size: nat, kind: nat, ghost n: nat)
      requires Valid() && n < E820MAX && E820_ENTRIES in fields && fields[E820_ENTRIES] == Number(1, n)
      requires Fits(fields, E820_ENTRIES, 1)
      requires Below(fields, E820_MAP + E820_ENTRY_SIZE * n)
      modifies this
      ensures Valid() && fields == WithE820(old(fields), n, addr, size, kind)
    {
      hide Value, BytesOf, Patched, Fits, Below;
      CountReads(raw, bytes, fields, n);
      var entry := E820_MAP + E820_ENTRY_SIZE * Value(bytes[E820_ENTRIES]);
      FitsAbove(fields, entry, Number(8, addr));
      StaysBelow(fields, entry, Number(8, addr));
      Set(entry, Number(8, addr));
      FitsAbove(fields, entry + 8, Number(8, size));
      StaysBelow(fields, entry + 8, Number(8, size));
      Set(entry + 8, Number(8, size));
      FitsAbove(fields, entry + 16, Number(4, kind));
      StaysBelow(fields, entry + 16, Number(4, kind));
      Set(entry + 16, Number(4, kind));
      CountReads(raw, bytes, fields, n);
      Set(E820_ENTRIES, Number(1, Value(bytes[E820_ENTRIES]) + 1));
    }
  }

  /** All fields end at or before an offset. */
  ghost predicate Below(fields: map<nat, Stored>, off: nat) {
    forall o | o in fields :: o + SizeOf(fields[o]) <= off
  }

  lemma FitsAbove(fields: map<nat, Stored>, off: nat, val: Stored)
    requires Below(fields, off) && SizeOf(val) > 0 && off + SizeOf(val) <= BOOT_PARAMS_SIZE
    ensures Fits(fields, off, SizeOf(val))
  {
  }

  lemma StaysBelow(fields: map<nat, Stored>, off: nat, val: Stored)
    requires Below(fields, off) && Fits(fields, E820_ENTRIES, 1) && off > E820_ENTRIES
    ensures Below(fields[off := val], off + SizeOf(val)) && Fits(fields[off := val], E820_ENTRIES, 1)
  {
  }

  ghost function WithE820(fields: map<nat, Stored>, n: nat, addr: nat, size: nat, kind: nat): map<nat, Stored> {
    var entry := E820_MAP + E820_ENTRY_SIZE * n;
    fields[entry := Number(8, addr)][entry + 8 := Number(8, size)]
      [entry + 16 := Number(4, kind)][E820_ENTRIES := Number(1, n + 1)]
  }

  lemma KeptByte(raw: seq<Octet>, bytes: seq<Octet>, fields: map<nat, Stored>, k: nat)
    requires Patched(raw, bytes, fields) && k < BOOT_PARAMS_SIZE && !CoveredBy(fields, k)
    ensures bytes[k] == raw[k]
  {
  }

  lemma CountReads(raw: seq<Octet>, bytes: seq<Octet>, fields: map<nat, Stored>, n: nat)
    requires Patched(raw, bytes, fields) && n < 0x100
    requires E820_ENTRIES in fields && fields[E820_ENTRIES] == Number(1, n)
    ensures Value(bytes[E820_ENTRIES]) == n
  {
    assert bytes[E820_ENTRIES + 0] == BytesOf(fields[E820_ENTRIES])[0];
    Pow2By8(0);
    BitsRoundTrip(n, 8);
  }

  // ---------------------------------------------------------------- what load_kernel stores

  const LINUX_LAYOUT_BOOTPARAM := 0x1_0000
  const LINUX_LAYOUT_CMDLINE := 0x2_0000
  const LINUX_LAYOUT_KERNEL_BASE := 0x10_0000
  const LINUX_LAYOUT_INITRD := 0x600_0000
  const GUEST_MEMORY_SIZE := 0x640_0000

  /** loaded_high, keep_segments and can_use_heap. */
  function LoadFlags(flags: Octet): Octet {
    flags[0 := true][6 := true][7 := true]
  }

  /** Loader identity, flags, heap end, command line and video mode. */
  ghost function IdentityFields(flags: Octet): map<nat, Stored> {
    map[
      E820_ENTRIES := Number(1, 0),
      TYPE_OF_LOADER := Number(1, 0xFF),
      EXT_LOADER_VER := Number(1, 0),
      LOADFLAGS := Flags(LoadFlags(flags)),
      HEAP_END_PTR := Number(2, LINUX_LAYOUT_BOOTPARAM - 0x200),
      CMD_LINE_PTR := Number(4, LINUX_LAYOUT_CMDLINE),
      VID_MODE := Number(2, 0xFFFF)
    ]
  }

  /** Two ranges of RAM: below and above the kernel base. */
  ghost function HeaderFields(flags: Octet): map<nat, Stored> {
    var low := WithE820(IdentityFields(flags), 0, 0, LINUX_LAYOUT_KERNEL_BASE, E820_TYPE_RAM);
    WithE820(low, 1, LINUX_LAYOUT_KERNEL_BASE, GUEST_MEMORY_SIZE - LINUX_LAYOUT_KERNEL_BASE, E820_TYPE_RAM)
  }

  /** And the initial ramdisk. */
  ghost function AllFields(flags: Octet, initrdSize: nat): map<nat, Stored> {
    HeaderFields(flags)[RAMDISK_IMAGE := Number(4, LINUX_LAYOUT_INITRD)][RAMDISK_SIZE := Number(4, initrdSize)]
  }

  /** The boot parameters the guest is to find: those of the image with exactly these fields stored. */
  ghost predicate Prepared(raw: seq<Octet>, bytes: seq<Octet>, initrdSize: nat) {
    |raw| == BOOT_PARAMS_SIZE && Patched(raw, bytes, AllFields(raw[LOADFLAGS], initrdSize))
  }

  method StoreIdentity(bp: BootParams)
    requires bp.Valid() && bp.fields == map[]
    modifies bp
    ensures bp.Valid() && bp.fields == IdentityFields(bp.raw[LOADFLAGS])
  {
    hide Patched, Value, BytesOf;
    bp.Set(E820_ENTRIES, Number(1, 0));
    bp.Set(TYPE_OF_LOADER, Number(1, 0xFF));
    bp.Set(EXT_LOADER_VER, Number(1, 0));
    KeptByte(bp.raw, bp.bytes, bp.fields, LOADFLAGS);
    bp.Set(LOADFLAGS, Flags(LoadFlags(bp.bytes[LOADFLAGS])));
    bp.Set(HEAP_END_PTR, Number(2, LINUX_LAYOUT_BOOTPARAM - 0x200));
    bp.Set(CMD_LINE_PTR, Number(4, LINUX_LAYOUT_CMDLINE));
    bp.Set(VID_MODE, Number(2, 0xFFFF));
  }

  method StoreHeaderFields(bp: BootParams)
    requires bp.Valid() && bp.fields == map[]
    modifies bp
    ensures bp.Valid() && bp.fields == HeaderFields(bp.raw[LOADFLAGS])
  {
    hide Patched, Value, BytesOf, LoadFlags;
    StoreIdentity(bp);
    bp.AddE820Entry(0, LINUX_LAYOUT_KERNEL_BASE, E820_TYPE_RAM, 0);
    bp.AddE820Entry(LINUX_LAYOUT_KERNEL_BASE, GUEST_MEMORY_SIZE - LINUX_LAYOUT_KERNEL_BASE, E820_TYPE_RAM, 1);
  }

  method StoreRamdisk(bp: BootParams, initrdSize: nat)
    requires bp.Valid() && bp.fields == HeaderFields(bp.raw[LOADFLAGS])
    modifies bp
    ensures bp.Valid() && Prepared(bp.raw, bp.bytes, initrdSize)
  {
    hide Patched, BytesOf, LoadFlags;
    bp.Set(RAMDISK_IMAGE, Number(4, LINUX_LAYOUT_INITRD));
    bp.Set(RAMDISK_SIZE, Number(4, initrdSize));
  }

  /** The stored numbers are what a reader of the prepared record finds in their fields. */
  lemma PreparedNumber(raw: seq<Octet>, bytes: seq<Octet>, initrdSize: nat, off: nat)
    requires Prepared(raw, bytes, initrdSize) && off in AllFields(raw[LOADFLAGS], initrdSize)
    requires AllFields(raw[LOADFLAGS], initrdSize)[off].Number?
    requires var f := AllFields(raw[LOADFLAGS], initrdSize)[off]; f.value < Pow2(8 * f.size)
    ensures var f := AllFields(raw[LOADFLAGS], initrdSize)[off];
            off + f.size <= |bytes| && FieldValue(bytes[off..off + f.size]) == f.value
  {
    hide AllFields, Le, FieldValue;
    var f := AllFields(raw[LOADFLAGS], initrdSize)[off];
    forall i | 0 <= i < f.size
      ensures bytes[off..off + f.size][i] == Le(f.value, f.size)[i]
    {
      assert bytes[off + i] == BytesOf(f)[i];
    }
    assert bytes[off..off + f.size] == Le(f.value, f.size);
    FieldReadsBack(f.value, f.size);
  }

  predicate LoaderReads(k: nat) {
    k == SETUP_SECTS || INITRD_ADDR_MAX <= k < INITRD_ADDR_MAX + 4 || CMDLINE_SIZE <= k < CMDLINE_SIZE + 4
  }

  lemma StoresElsewhere(flags: Octet, initrdSize: nat, k: nat)
    requires LoaderReads(k)
    ensures !CoveredBy(HeaderFields(flags), k) && !CoveredBy(AllFields(flags, initrdSize), k)
  {
    hide LoadFlags;
    var fields := AllFields(flags, initrdSize);
    forall o | o in fields
      ensures !(o <= k < o + SizeOf(fields[o]))
    {
    }
  }

  /** No store touches the fields the loader reads. */
  lemma ReadFieldsKept(raw: seq<Octet>, bytes: seq<Octet>, initrdSize: nat)
    requires |raw| == |bytes| == BOOT_PARAMS_SIZE
    requires Patched(raw, bytes, HeaderFields(raw[LOADFLAGS])) || Prepared(raw, bytes, initrdSize)
    ensures bytes[SETUP_SECTS] == raw[SETUP_SECTS]
    ensures bytes[INITRD_ADDR_MAX..INITRD_ADDR_MAX + 4] == raw[INITRD_ADDR_MAX..INITRD_ADDR_MAX + 4]
    ensures bytes[CMDLINE_SIZE..CMDLINE_SIZE + 4] == raw[CMDLINE_SIZE..CMDLINE_SIZE + 4]
  {
    hide Patched, CoveredBy, HeaderFields, AllFields;
    forall k | 0 <= k < BOOT_PARAMS_SIZE && LoaderReads(k)
      ensures bytes[k] == raw[k]
    {
      StoresElsewhere(raw[LOADFLAGS], initrdSize, k);
      if Patched(raw, bytes, HeaderFields(raw[LOADFLAGS])) {
        KeptByte(raw, bytes, HeaderFields(raw[LOADFLAGS]), k);
      } else {
        KeptByte(raw, bytes, AllFields(raw[LOADFLAGS], initrdSize), k);
      }
    }
  }

  // ---------------------------------------------------------------- the record as a reader finds it

  /** The stored numbers, by offset: ramdisk and command line. */
  lemma FieldsByOffset(flags: Octet, initrdSize: nat)
    ensures var f := AllFields(flags, initrdSize);
            && 0x218 in f && f[0x218] == Number(4, 0x600_0000) && 0x21C in f && f[0x21C] == Number(4, initrdSize)
            && 0x228 in f && f[0x228] == Number(4, 0x2_0000) && 0x224 in f && f[0x224] == Number(2, 0xFE00)
  {
    hide LoadFlags;
  }

  /** Those that describe the loader. */
  lemma LoaderByOffset(flags: Octet, initrdSize: nat)
    ensures var f := AllFields(flags, initrdSize);
            && 0x210 in f && f[0x210] == Number(1, 0xFF) && 0x226 in f && f[0x226] == Number(1, 0)
            && 0x1FA in f && f[0x1FA] == Number(2, 0xFFFF)
            && 0x211 in f && f[0x211] == Flags(LoadFlags(flags))
  {
    hide LoadFlags;
  }

  /** And those of the memory map. */
  lemma MapByOffset(flags: Octet, initrdSize: nat)
    ensures var f := AllFields(flags, initrdSize);
            && 0x1E8 in f && f[0x1E8] == Number(1, 2)
            && 0x2D0 in f && f[0x2D0] == Number(8, 0) && 0x2D8 in f && f[0x2D8] == Number(8, 0x10_0000)
            && 0x2E0 in f && f[0x2E0] == Number(4, 1)
            && 0x2E4 in f && f[0x2E4] == Number(8, 0x10_0000) && 0x2EC in f && f[0x2EC] == Number(8, 0x630_0000)
            && 0x2F4 in f && f[0x2F4] == Number(4, 1)
  {
    hide LoadFlags;
  }

  /** What the Linux entry code finds in the prepared record: loader, flags, command line, video mode and ramdisk. */
  lemma HeaderAsRead(raw: seq<Octet>, bytes: seq<Octet>, initrdSize: nat)
    requires Prepared(raw, bytes, initrdSize) && initrdSize < 0x1_0000_0000
    ensures |bytes| == 0x1000
    ensures FieldValue(bytes[0x218..0x21C]) == 0x600_0000 && FieldValue(bytes[0x21C..0x220]) == initrdSize
    ensures FieldValue(bytes[0x228..0x22C]) == 0x2_0000 && FieldValue(bytes[0x224..0x226]) == 0xFE00
    ensures FieldValue(bytes[0x1FA..0x1FC]) == 0xFFFF
    ensures FieldValue(bytes[0x210..0x211]) == 0xFF && FieldValue(bytes[0x226..0x227]) == 0
    ensures bytes[0x211] == raw[0x211][0 := true][6 := true][7 := true]
  {
    hide AllFields, FieldValue, Pow2, BytesOf;
    FieldsByOffset(raw[LOADFLAGS], initrdSize);
    LoaderByOffset(raw[LOADFLAGS], initrdSize);
    Pow2Values();
    PreparedNumber(raw, bytes, initrdSize, 0x218);
    PreparedNumber(raw, bytes, initrdSize, 0x21C);
    PreparedNumber(raw, bytes, initrdSize, 0x228);
    PreparedNumber(raw, bytes, initrdSize, 0x224);
    PreparedNumber(raw, bytes, initrdSize, 0x1FA);
    PreparedNumber(raw, bytes, initrdSize, 0x210);
    PreparedNumber(raw, bytes, initrdSize, 0x226);
    FlagsHold(raw, bytes, initrdSize);
  }

  /** Offsets that no store reaches. */
  predicate Untouched(k: nat) {
    && k < 0x1000 && k != 0x1E8 && !(0x1FA <= k < 0x1FC) && !(0x210 <= k < 0x212) && !(0x218 <= k < 0x220)
    && !(0x224 <= k < 0x227) && !(0x228 <= k < 0x22C) && !(0x2D0 <= k < 0x2F8)
  }

  lemma StoredElsewhere(flags: Octet, initrdSize: nat, k: nat)
    requires Untouched(k)
    ensures !CoveredBy(AllFields(flags, initrdSize), k)
  {
    hide LoadFlags;
    var fields := AllFields(flags, initrdSize);
    forall o | o in fields
      ensures !(o <= k < o + SizeOf(fields[o]))
    {
    }
  }

  /** All the rest is as in the image. */
  lemma RestAsInImage(raw: seq<Octet>, bytes: seq<Octet>, initrdSize: nat, k: nat)
    requires Prepared(raw, bytes, initrdSize) && Untouched(k)
    ensures |bytes| == 0x1000 && bytes[k] == raw[k]
  {
    hide AllFields, CoveredBy;
    StoredElsewhere(raw[LOADFLAGS], initrdSize, k);
    KeptByte(raw, bytes, AllFields(raw[LOADFLAGS], initrdSize), k);
  }

  lemma FlagsHold(raw: seq<Octet>, bytes: seq<Octet>, initrdSize: nat)
    requires Prepared(raw, bytes, initrdSize)
    ensures |bytes| == BOOT_PARAMS_SIZE && bytes[0x211] == raw[0x211][0 := true][6 := true][7 := true]
  {
    hide AllFields;
    LoaderByOffset(raw[LOADFLAGS], initrdSize);
    assert FieldHolds(bytes, 0x211, AllFields(raw[LOADFLAGS], initrdSize)[0x211]);
    assert bytes[0x211 + 0] == BytesOf(AllFields(raw[LOADFLAGS], initrdSize)[0x211])[0];
  }

  /** The memory map of the record: an address lies in one of its first entries of type RAM. */
  predicate InRam(bytes: seq<Octet>, a: nat)
    requires |bytes| == 0x1000
  {
    exists i | 0 <= i < 128 :: i < Value(bytes[0x1E8]) && RamEntry(bytes, i, a)
  }

  predicate RamEntry(bytes: seq<Octet>, i: nat, a: nat)
    requires |bytes| == 0x1000 && i < 128
  {
    var entry := 0x2D0 + 20 * i;
    && FieldValue(bytes[entry + 16..entry + 20]) == 1
    && FieldValue(bytes[entry..entry + 8]) <= a
    && a - FieldValue(bytes[entry..entry + 8]) < FieldValue(bytes[entry + 8..entry + 16])
  }

  /** The map announces exactly the first 100MiB. */
  lemma RamAsRead(raw: seq<Octet>, bytes: seq<Octet>, initrdSize: nat, a: nat)
    requires Prepared(raw, bytes, initrdSize)
    ensures |bytes| == 0x1000 && (InRam(bytes, a) <==> a < 100 * 1024 * 1024)
  {
    hide AllFields, FieldValue, Pow2, BytesOf, Value;
    MapByOffset(raw[LOADFLAGS], initrdSize);
    Pow2Values();
    PreparedNumber(raw, bytes, initrdSize, 0x1E8);
    OneByteValue(bytes, 0x1E8);
    PreparedNumber(raw, bytes, initrdSize, 0x2D0);
    PreparedNumber(raw, bytes, initrdSize, 0x2D8);
    PreparedNumber(raw, bytes, initrdSize, 0x2E0);
    PreparedNumber(raw, bytes, initrdSize, 0x2E4);
    PreparedNumber(raw, bytes, initrdSize, 0x2EC);
    PreparedNumber(raw, bytes, initrdSize, 0x2F4);
    assert RamEntry(bytes, 0, a) <==> a < 0x10_0000;
    assert RamEntry(bytes, 1, a) <==> 0x10_0000 <= a < 0x640_0000;
  }

  lemma OneByteValue(bytes: seq<Octet>, o: nat)
    requires o < |bytes|
    ensures FieldValue(bytes[o..o + 1]) == Value(bytes[o])
  {
    assert bytes[o..o + 1] == [bytes[o]];
    assert FieldValue([bytes[o]]) == Value(bytes[o]) + 0x100 * FieldValue([]);
  }
}

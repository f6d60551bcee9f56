/** The SPI flash lockdown: protected range 0 is programmed with the ME region
    of the flash descriptor, the configuration is latched, and the same writes
    are recorded for replay on resume from S3. Register semantics follow the
    Intel ICH9 datasheet 316972-004 as far as the driver's header states them.
  */
module SpiLockdown {
  import opened Bits

  const RCBA_ADDR_MASK: nat := 0xFFFF_C000
  const SPIBAR_OFFSET: nat := 0x3800
  const R_HSFS: nat := 0x04
  const R_PR0: nat := 0x74
  const FLOCKDN: nat := 0x8000
  const PR_WP: nat := 0x8000
  const PR_RP: nat := 0x8000_0000
  const BLE: nat := 0x02
  const SMM_BWP: nat := 0x20

  // ---------------------------------------------------------------- the register machine

  datatype Regs = Regs(rcba: nat, freg2: nat, pr0: nat, hsfs: nat, biosCntl: nat)

  /** The configuration latch, bit 15 of the status register. */
  predicate Latched(r: Regs) {
    And(r.hsfs, FLOCKDN) != 0
  }

  predicate Enabled(rcba: nat) {
    And(rcba, 1) != 0
  }

  function SpiBar(rcba: nat): nat {
    And(rcba, RCBA_ADDR_MASK) + SPIBAR_OFFSET
  }

  /** A memory-mapped write. Once latched, the protected range is read-only and
      the latch itself cannot be cleared.
    */
  function MmioWrite(r: Regs, addr: nat, v: nat): (w: Regs)
    ensures w.rcba == r.rcba && w.freg2 == r.freg2 && w.biosCntl == r.biosCntl
  {
    if !Enabled(r.rcba) then r
    else if addr == SpiBar(r.rcba) + R_PR0 then (if Latched(r) then r else r.(pr0 := v))
    else if addr == SpiBar(r.rcba) + R_HSFS then r.(hsfs := Or(v, And(r.hsfs, FLOCKDN)))
    else r
  }

  /** A write to BIOS_CNTL: the lock enable stays set. */
  function BiosCntlWrite(r: Regs, v: nat): (w: Regs)
    ensures w == r.(biosCntl := w.biosCntl)
  {
    r.(biosCntl := Or(v, And(r.biosCntl, BLE)))
  }

  /** The resume reset clears the latch, the range and the controls; firmware
      puts the chipset base back to its boot value.
    */
  function S3Reset(r: Regs, bootRcba: nat): Regs {
    Regs(bootRcba, r.freg2, 0, 0, 0)
  }

  /** The latch mask tests bit 15. */
  lemma LatchIsBit(x: nat)
    ensures And(x, FLOCKDN) != 0 <==> Bit(x, 15) == 1
    ensures And(x, FLOCKDN) == FLOCKDN * Bit(x, 15)
  {
    hide And, Pow2;
    Pow2Values();
    AndBit(x, 15);
  }

  /** Writing the status register sets the latch or keeps it. */
  lemma LatchAfter(v: nat, hsfs: nat)
    ensures And(Or(v, And(hsfs, FLOCKDN)), FLOCKDN) != 0 <==> And(v, FLOCKDN) != 0 || And(hsfs, FLOCKDN) != 0
  {
    hide And, Or, Bit;
    var kept := And(hsfs, FLOCKDN);
    LatchIsBit(v);
    LatchIsBit(hsfs);
    LatchIsBit(Or(v, kept));
    OrBit(v, kept, 15);
    KeptBit(Bit(hsfs, 15));
  }

  lemma KeptBit(b: nat)
    requires b < 2
    ensures Bit(0x8000 * b, 15) == b
  {
    Pow2Values();
    hide Pow2;
  }

  lemma WritePr0(r: Regs, v: nat)
    requires Enabled(r.rcba)
    ensures MmioWrite(r, SpiBar(r.rcba) + R_PR0, v) == if Latched(r) then r else r.(pr0 := v)
  {
    hide SpiBar, Enabled, Latched, And, Or;
  }

  lemma WriteHsfs(r: Regs, v: nat)
    requires Enabled(r.rcba)
    ensures
      var w := MmioWrite(r, SpiBar(r.rcba) + R_HSFS, v);
      w == r.(hsfs := w.hsfs) && (Latched(w) <==> Latched(r) || And(v, FLOCKDN) != 0)
  {
    LatchAfter(v, r.hsfs);
    hide SpiBar, Enabled, And, Or;
  }

  /** The addresses that the machine decodes: the enable bit is bit 0 of the
      chipset base, whose block is aligned to 16 kilobytes, and the range and
      the status register are at fixed places in it.
    */
  lemma RegistersAt(r: Regs, v: nat)
    requires r.rcba < WORD32
    ensures
      var bar := r.rcba / 0x4000 * 0x4000 + 0x3800;
      && (Enabled(r.rcba) <==> r.rcba % 2 == 1) && SpiBar(r.rcba) == bar
      && MmioWrite(r, bar + 0x74, v).pr0 == (if r.rcba % 2 == 1 && !Latched(r) then v else r.pr0)
      && (r.rcba % 2 == 1 ==> MmioWrite(r, bar + 0x04, v).hsfs == Or(v, And(r.hsfs, 0x8000)))
  {
    hide And, Or, Pow2, Latched;
    BarIs(r.rcba);
  }

  lemma Power14()
    ensures Pow2(1) == 2 && Pow2(14) == 0x4000
  {
    assert Pow2(1) == 2;
    hide Pow2;
    Pow2Values();
    Pow2Add(13, 1);
  }

  lemma BarIs(rcba: nat)
    requires rcba < WORD32
    ensures And(rcba, 1) == rcba % 2 && And(rcba, RCBA_ADDR_MASK) == rcba / 0x4000 * 0x4000
  {
    hide And, Pow2;
    Pow2Values();
    Power14();
    AndLowMask(rcba, 1);
    AndField(rcba, 14, 32);
    DivModUnique(rcba, WORD32, 0, rcba);
  }

  // -------------------------------------------------------------------- the boot script

  datatype Record = PciConfig(value: nat) | Memory(addr: nat, value: nat)

  function Replay(r: Regs, rec: Record): Regs {
    match rec
    case PciConfig(v) => BiosCntlWrite(r, v)
    case Memory(addr, v) => MmioWrite(r, addr, v)
  }

  function ReplayAll(r: Regs, script: seq<Record>): Regs
    decreases script
  {
    if script == [] then r else ReplayAll(Replay(r, script[0]), script[1..])
  }

  // ----------------------------------------------------------------- what is programmed

  /** First and last byte of the ME region, as the driver extracts them. */
  function MeBase(freg2: nat): nat {
    And(freg2, 0x1FFF) * 0x1000
  }

  function MeLimit(freg2: nat): nat {
    Or(And(freg2, 0x1FFF_0000) / 0x1_0000 * 0x1000, 0xFFF)
  }

  /** The register value for a range, by the driver's macros. */
  function PrValue(base: nat, limit: nat, wp: bool, rp: bool): nat {
    Or(Or(Or(And(base / 0x1000, 0x1FFF), And(limit / 0x1000, 0x1FFF) * 0x1_0000),
          if wp then PR_WP else 0),
       if rp then PR_RP else 0)
  }

  /** The value the driver programs for a flash descriptor. */
  function Pr0For(freg2: nat): nat {
    PrValue(MeBase(freg2), MeLimit(freg2), true, false)
  }

  datatype Range = Range(start: nat, end: nat, writeProtect: bool, readProtect: bool)

  /** The range a register value protects, by the register's documented fields. */
  function Decode(pr: nat): Range {
    Range(pr % 0x2000 * 0x1000, (pr / 0x1_0000 % 0x2000 + 1) * 0x1000 - 1, Bit(pr, 15) == 1, Bit(pr, 31) == 1)
  }

  /** The ME region by the flash descriptor's documented fields, write-protected. */
  function MeRegion(freg2: nat): Range {
    Range(freg2 % 0x2000 * 0x1000, (freg2 / 0x1_0000 % 0x2000 + 1) * 0x1000 - 1, true, false)
  }

  lemma MeBoundsAre(freg2: nat)
    ensures MeBase(freg2) == freg2 % 0x2000 * 0x1000
    ensures MeLimit(freg2) == freg2 / 0x1_0000 % 0x2000 * 0x1000 + 0xFFF
  {
    hide And, Or, Pow2;
    Pow2Values();
    AndLowMask(freg2, 13);
    AndField(freg2, 16, 29);
    var l := freg2 / 0x1_0000 % 0x2000;
    DivDiv(freg2, 0x1_0000, 0x2000);
    assert And(freg2, 0x1FFF_0000) == l * 0x1_0000;
    OrAligned(l * 0x1000, 0xFFF, 12);
  }

  lemma Bit15Clear(b: nat, l: nat)
    requires b < 0x2000
    ensures Bit(b + l * 0x1_0000, 15) == 0
  {
    hide Pow2;
    Pow2Values();
    DivModUnique(b + l * 0x1_0000, 0x8000, 2 * l, b);
  }

  lemma PackedIs(b: nat, l: nat)
    requires b < 0x2000 && l < 0x2000
    ensures PrValue(b * 0x1000, l * 0x1000 + 0xFFF, true, false) == b + l * 0x1_0000 + 0x8000
  {
    hide And, Or, Pow2, Bit;
    Pow2Values();
    AndLowMask(b, 13);
    AndLowMask(l, 13);
    OrComm(b, l * 0x1_0000);
    OrAligned(l * 0x1_0000, b, 16);
    Bit15Clear(b, l);
    OrSetBit(b + l * 0x1_0000, 15);
    OrZero(b + l * 0x1_0000 + 0x8000);
  }

  lemma PackedBits(b: nat, l: nat)
    requires b < 0x2000 && l < 0x2000
    ensures var x := b + l * 0x1_0000 + 0x8000; Bit(x, 15) == 1 && Bit(x, 31) == 0
  {
    hide Pow2;
    Pow2Values();
    var x := b + l * 0x1_0000 + 0x8000;
    DivModUnique(x, 0x8000, 2 * l + 1, b);
    DivModUnique(x, 0x8000_0000, 0, x);
  }

  lemma DecodePacked(b: nat, l: nat)
    requires b < 0x2000 && l < 0x2000
    ensures Decode(b + l * 0x1_0000 + 0x8000) == Range(b * 0x1000, (l + 1) * 0x1000 - 1, true, false)
  {
    hide Pow2, Bit;
    var x := b + l * 0x1_0000 + 0x8000;
    PackedBits(b, l);
    DivModUnique(x, 0x2000, 8 * l + 4, b);
    DivModUnique(x, 0x1_0000, l, b + 0x8000);
    DivModUnique(l, 0x2000, 0, l);
  }

  /** The programmed range is exactly the ME region, protected against writes only. */
  lemma Pr0DecodesToMe(freg2: nat)
    ensures Decode(Pr0For(freg2)) == MeRegion(freg2)
  {
    hide MeBase, MeLimit, PrValue, Decode;
    var b, l := freg2 % 0x2000, freg2 / 0x1_0000 % 0x2000;
    MeBoundsAre(freg2);
    PackedIs(b, l);
    DecodePacked(b, l);
  }

  /** The chip protects the ME region and cannot be reconfigured. */
  predicate Protected(r: Regs) {
    Latched(r) && Decode(r.pr0) == MeRegion(r.freg2)
  }

  lemma Unprotected(r: Regs)
    requires !Latched(r) || r.pr0 == 0
    ensures !Protected(r)
  {
    hide Latched;
  }

  // ------------------------------------------------------------------------ the lockdown

  /** BIOS_CNTL with writes off, the lock armed and writes confined to SMM. */
  function LockedControl(c: nat): nat {
    Or(Or(And(c, 0xFE), BLE), SMM_BWP)
  }

  /** A status value with the latch bit set. */
  function WithLatch(hsfs: nat): nat {
    Or(hsfs, FLOCKDN)
  }

  lemma WithLatchSet(hsfs: nat)
    ensures And(WithLatch(hsfs), FLOCKDN) != 0
  {
    hide And, Or, Bit;
    LatchIsBit(Or(hsfs, FLOCKDN));
    OrBit(hsfs, FLOCKDN, 15);
    KeptBit(1);
  }

  /** The registers after the driver's writes, in order: the range, the latch
      unless it is already set, and the BIOS controls.
    */
  function LockedDown(r: Regs): Regs {
    var bar := SpiBar(r.rcba);
    var r1 := MmioWrite(r, bar + R_PR0, Pr0For(r.freg2));
    var r2 := if Latched(r1) then r1 else MmioWrite(r1, bar + R_HSFS, WithLatch(r1.hsfs));
    BiosCntlWrite(r2, LockedControl(r2.biosCntl))
  }

  /** A control value with flash writes off, the lock armed and writes confined
      to SMM, and otherwise as it was before.
    */
  predicate ControlsLocked(now: nat, was: nat) {
    && Bit(now, 0) == 0 && Bit(now, 1) == 1 && Bit(now, 5) == 1
    && forall k: nat :: k in {2, 3, 4, 6, 7} ==> Bit(now, k) == Bit(was, k)
  }

  lemma MaskBits(k: nat)
    requires k < 8
    ensures Bit(0xFE, k) == (if k == 0 then 0 else 1)
    ensures Bit(BLE, k) == (if k == 1 then 1 else 0) && Bit(SMM_BWP, k) == (if k == 5 then 1 else 0)
  {
    assert Pow2(0) == 1 && Pow2(1) == 2 && Pow2(2) == 4 && Pow2(3) == 8;
    assert Pow2(4) == 16 && Pow2(5) == 32 && Pow2(6) == 64 && Pow2(7) == 128;
  }

  lemma LockedControlBit(c: nat, k: nat)
    requires k < 8
    ensures
      var now := Bit(Or(LockedControl(c), And(c, BLE)), k);
      if k == 0 then now == 0 else if k == 1 || k == 5 then now == 1 else now == Bit(c, k)
  {
    hide And, Or, Bit;
    MaskBits(k);
    BitAnd(c, 0xFE, k);
    OrBit(And(c, 0xFE), BLE, k);
    OrBit(Or(And(c, 0xFE), BLE), SMM_BWP, k);
    BitAnd(c, BLE, k);
    OrBit(LockedControl(c), And(c, BLE), k);
    BitBinary(c, k);
  }

  lemma BitBinary(x: nat, k: nat)
    ensures Bit(x, k) < 2
  {
  }

  /** After the lockdown the flash controls are locked, bit by bit. */
  lemma LockdownControls(r: Regs)
    ensures ControlsLocked(LockedDown(r).biosCntl, r.biosCntl)
  {
    hide And, Or, Bit, LockedControl, Latched, SpiBar, Pr0For, WithLatch;
    forall k: nat | k < 8
      ensures
        var now := Bit(LockedDown(r).biosCntl, k);
        if k == 0 then now == 0 else if k == 1 || k == 5 then now == 1 else now == Bit(r.biosCntl, k)
    {
      LockedControlBit(r.biosCntl, k);
    }
  }

  /** The lockdown changes no status bit but the latch. */
  lemma LockdownStatus(r: Regs, k: nat)
    requires Enabled(r.rcba) && k != 15
    ensures Bit(LockedDown(r).hsfs, k) == Bit(r.hsfs, k)
  {
    hide And, Or, Bit, LockedControl, SpiBar, Pr0For, Enabled;
    BitBinary(r.hsfs, k);
    LatchBitAt(k);
    OrBit(r.hsfs, FLOCKDN, k);
    BitAnd(r.hsfs, FLOCKDN, k);
    OrBit(Or(r.hsfs, FLOCKDN), And(r.hsfs, FLOCKDN), k);
  }

  lemma LatchBitAt(k: nat)
    requires k != 15
    ensures Bit(FLOCKDN, k) == 0
  {
    hide Bit, Pow2;
    Pow2Values();
    BitOfPow2(15, k);
  }

  /** Which of the three boot script records the firmware accepts. */
  datatype Accepts = Accepts(bios: bool, pr0: bool, hsfs: bool)

  /** The script recorded after the lockdown: the latch comes last. */
  function Recorded(r: Regs, a: Accepts): seq<Record> {
    (if a.bios then [PciConfig(r.biosCntl)] else [])
    + (if a.pr0 then [Memory(SpiBar(r.rcba) + R_PR0, Pr0For(r.freg2))] else [])
    + (if a.hsfs then [Memory(SpiBar(r.rcba) + R_HSFS, WithLatch(r.hsfs))] else [])
  }

  class Chipset {
    var regs: Regs
    var script: seq<Record>

    constructor (r: Regs)
      ensures regs == r && script == []
    {
      regs, script := r, [];
    }

    /** The driver's lockdown. `s3` says whether the save-state protocol is
        present, `a` which records it accepts. Fails only if the chipset base
        is disabled.
      */
    method EnforceSpiLockdown(s3: bool, a: Accepts) returns (ok: bool)
      modifies this
      ensures ok <==> Enabled(old(regs).rcba)
      ensures !ok ==> regs == old(regs) && script == old(script)
      ensures ok ==> regs == LockedDown(old(regs))
      ensures ok ==> script == old(script) + if s3 then Recorded(regs, a) else []
    {
      hide Enabled, SpiBar, MmioWrite, BiosCntlWrite, Latched, PrValue, MeBase, MeLimit, LockedControl, WithLatch;
      if !Enabled(regs.rcba) {
        return false;
      }
      var bar := SpiBar(regs.rcba);
      var pr0 := PrValue(MeBase(regs.freg2), MeLimit(regs.freg2), true, false);
      regs := MmioWrite(regs, bar + R_PR0, pr0);
      if !Latched(regs) {
        regs := MmioWrite(regs, bar + R_HSFS, WithLatch(regs.hsfs));
      }
      regs := BiosCntlWrite(regs, LockedControl(regs.biosCntl));
      if s3 {
        if a.bios {
          script := script + [PciConfig(regs.biosCntl)];
        }
        if a.pr0 {
          script := script + [Memory(bar + R_PR0, pr0)];
        }
        if a.hsfs {
          script := script + [Memory(bar + R_HSFS, WithLatch(regs.hsfs))];
        }
      }
      ok := true;
    }
  }

  // ------------------------------------------------------------------------- later runs

  /** What can happen to the registers afterwards. */
  datatype Event = Mmio(addr: nat, value: nat) | Bios(value: nat) | Rcba(value: nat) | Resume

  function Step(r: Regs, script: seq<Record>, boot: nat, e: Event): Regs {
    match e
    case Mmio(addr, v) => MmioWrite(r, addr, v)
    case Bios(v) => BiosCntlWrite(r, v)
    case Rcba(v) => r.(rcba := v)
    case Resume => ReplayAll(S3Reset(r, boot), script)
  }

  function Run(r: Regs, script: seq<Record>, boot: nat, events: seq<Event>): Regs {
    if events == [] then r
    else Step(Run(r, script, boot, events[..|events| - 1]), script, boot, events[|events| - 1])
  }

  lemma SameLatch(r: Regs, w: Regs)
    requires w.hsfs == r.hsfs
    ensures Latched(w) <==> Latched(r)
  {
  }

  /** The lockdown as fields: the range is the driver's unless the latch was
      already set, and the latch is set.
    */
  lemma LockedDownIs(r: Regs)
    requires Enabled(r.rcba)
    ensures Latched(LockedDown(r)) && LockedDown(r).freg2 == r.freg2 && LockedDown(r).rcba == r.rcba
    ensures LockedDown(r).pr0 == if Latched(r) then r.pr0 else Pr0For(r.freg2)
  {
    hide Pr0For, SpiBar, MmioWrite, BiosCntlWrite, Enabled, WithLatch, LockedControl, Latched;
    var bar := SpiBar(r.rcba);
    var r1 := MmioWrite(r, bar + R_PR0, Pr0For(r.freg2));
    WritePr0(r, Pr0For(r.freg2));
    SameLatch(r, r1);
    WriteHsfs(r1, WithLatch(r1.hsfs));
    WithLatchSet(r1.hsfs);
    var r2 := if Latched(r1) then r1 else MmioWrite(r1, bar + R_HSFS, WithLatch(r1.hsfs));
    SameLatch(r2, LockedDown(r));
  }

  /** After a successful lockdown the ME region is protected if and only if the
      platform had not latched another range before.
    */
  lemma ProtectedIff(r: Regs)
    requires Enabled(r.rcba)
    ensures Protected(LockedDown(r)) <==> !Latched(r) || Decode(r.pr0) == MeRegion(r.freg2)
  {
    hide Pr0For, Decode, MeRegion, LockedDown, Latched, Enabled;
    LockedDownIs(r);
    Pr0DecodesToMe(r.freg2);
  }

  /** Protected, with a given ME region. */
  predicate Held(r: Regs, freg2: nat) {
    Protected(r) && r.freg2 == freg2
  }

  lemma MmioKeepsHeld(r: Regs, freg2: nat, addr: nat, v: nat)
    requires Held(r, freg2)
    ensures Held(MmioWrite(r, addr, v), freg2)
  {
    hide Decode, MeRegion, SpiBar, Enabled, And, Or;
    LatchAfter(v, r.hsfs);
  }

  lemma BiosKeepsHeld(r: Regs, freg2: nat, v: nat)
    requires Held(r, freg2)
    ensures Held(BiosCntlWrite(r, v), freg2)
  {
    hide Decode, MeRegion, BiosCntlWrite, Latched;
    SameLatch(r, BiosCntlWrite(r, v));
  }

  lemma ResetUnlatched(r: Regs, boot: nat)
    ensures !Latched(S3Reset(r, boot))
  {
  }

  lemma {:induction false} ReplayConcat(r: Regs, x: seq<Record>, y: seq<Record>)
    ensures ReplayAll(r, x + y) == ReplayAll(ReplayAll(r, x), y)
    decreases x
  {
    hide Replay;
    if x == [] {
      assert x + y == y;
    } else {
      assert (x + y)[1..] == x[1..] + y;
      ReplayConcat(Replay(r, x[0]), x[1..], y);
    }
  }

  lemma ReplayOne(r: Regs, rec: Record)
    ensures ReplayAll(r, [rec]) == Replay(r, rec) && ReplayAll(r, []) == r
  {
    hide Replay;
    assert [rec][1..] == [];
  }

  /** The script replays as its accepted records, in order. */
  lemma ReplayRecorded(r0: Regs, locked: Regs, a: Accepts)
    ensures
      var bar := SpiBar(locked.rcba);
      var r1 := if a.bios then BiosCntlWrite(r0, locked.biosCntl) else r0;
      var r2 := if a.pr0 then MmioWrite(r1, bar + R_PR0, Pr0For(locked.freg2)) else r1;
      ReplayAll(r0, Recorded(locked, a)) == if a.hsfs then MmioWrite(r2, bar + R_HSFS, WithLatch(locked.hsfs)) else r2
  {
    hide Pr0For, SpiBar, MmioWrite, BiosCntlWrite, WithLatch, ReplayAll;
    var bar := SpiBar(locked.rcba);
    var p, q := PciConfig(locked.biosCntl), Memory(bar + R_PR0, Pr0For(locked.freg2));
    var s := Memory(bar + R_HSFS, WithLatch(locked.hsfs));
    var x := if a.bios then [p] else [];
    var y := if a.pr0 then [q] else [];
    var z := if a.hsfs then [s] else [];
    assert Recorded(locked, a) == x + (y + z);
    ReplayConcat(r0, x, y + z);
    ReplayOne(r0, p);
    var r1 := ReplayAll(r0, x);
    ReplayConcat(r1, y, z);
    ReplayOne(r1, q);
    ReplayOne(ReplayAll(r1, y), s);
  }

  /** Replaying a script with both records restores range and latch; without
      either it does not.
    */
  lemma ReplayHolds(r: Regs, locked: Regs, a: Accepts)
    requires Enabled(locked.rcba) && r.freg2 == locked.freg2
    ensures
      var after := ReplayAll(S3Reset(r, locked.rcba), Recorded(locked, a));
      && after.freg2 == r.freg2
      && (Latched(after) <==> a.hsfs)
      && after.pr0 == if a.pr0 then Pr0For(r.freg2) else 0
  {
    hide Pr0For, SpiBar, MmioWrite, BiosCntlWrite, Enabled, WithLatch, Latched, ReplayAll, Recorded;
    var bar := SpiBar(locked.rcba);
    var r0 := S3Reset(r, locked.rcba);
    ResetUnlatched(r, locked.rcba);
    var r1 := if a.bios then BiosCntlWrite(r0, locked.biosCntl) else r0;
    SameLatch(r0, r1);
    WritePr0(r1, Pr0For(locked.freg2));
    var r2 := if a.pr0 then MmioWrite(r1, bar + R_PR0, Pr0For(locked.freg2)) else r1;
    SameLatch(r1, r2);
    WriteHsfs(r2, WithLatch(locked.hsfs));
    WithLatchSet(locked.hsfs);
    ReplayRecorded(r0, locked, a);
  }

  /** With both records accepted, protection survives every later sequence of
      register writes and resumes.
    */
  lemma {:induction false} RunHolds(r: Regs, locked: Regs, a: Accepts, events: seq<Event>)
    requires Enabled(locked.rcba) && a.pr0 && a.hsfs && Held(r, locked.freg2)
    ensures Held(Run(r, Recorded(locked, a), locked.rcba, events), locked.freg2)
  {
    hide Recorded, Pr0For, Decode, MeRegion, MmioWrite, BiosCntlWrite, ReplayAll, Latched, Enabled;
    if events != [] {
      var n := |events| - 1;
      RunHolds(r, locked, a, events[..n]);
      var before := Run(r, Recorded(locked, a), locked.rcba, events[..n]);
      match events[n]
      case Mmio(addr, v) => MmioKeepsHeld(before, locked.freg2, addr, v);
      case Bios(v) => BiosKeepsHeld(before, locked.freg2, v);
      case Rcba(v) => SameLatch(before, before.(rcba := v));
      case Resume =>
        ReplayHolds(before, locked, a);
        Pr0DecodesToMe(locked.freg2);
    }
  }

  ghost predicate AlwaysProtected(r: Regs, script: seq<Record>, boot: nat) {
    forall events :: Protected(Run(r, script, boot, events))
  }

  lemma RunResume(r: Regs, script: seq<Record>, boot: nat)
    ensures Run(r, script, boot, [Resume]) == ReplayAll(S3Reset(r, boot), script)
  {
    hide ReplayAll, S3Reset, MmioWrite, BiosCntlWrite;
    assert [Resume][..0] == [];
    assert Run(r, script, boot, []) == r;
  }

  lemma RunNothing(r: Regs, script: seq<Record>, boot: nat)
    ensures Run(r, script, boot, []) == r
  {
  }

  /** The lockdown protects the ME region through every later run if and only
      if the records of both the range and the latch were accepted and the
      platform had not latched another range before.
    */
  lemma LockdownLastsIff(r: Regs, s3: bool, a: Accepts)
    requires Enabled(r.rcba)
    ensures
      var locked := LockedDown(r);
      AlwaysProtected(locked, if s3 then Recorded(locked, a) else [], r.rcba) <==>
      s3 && a.pr0 && a.hsfs && (!Latched(r) || Decode(r.pr0) == MeRegion(r.freg2))
  {
    hide Pr0For, Decode, MeRegion, LockedDown, Recorded, Latched, Enabled, Run, ReplayAll, Protected;
    var locked := LockedDown(r);
    LockedDownIs(r);
    ProtectedIff(r);
    var script := if s3 then Recorded(locked, a) else [];
    RunNothing(locked, script, r.rcba);
    if s3 && a.pr0 && a.hsfs {
      if Protected(locked) {
        forall events ensures Protected(Run(locked, script, r.rcba, events)) {
          RunHolds(locked, locked, a, events);
        }
      }
    } else {
      RunResume(locked, script, r.rcba);
      if s3 {
        ReplayHolds(locked, locked, a);
      } else {
        ResetUnlatched(locked, r.rcba);
        ReplayOne(S3Reset(locked, r.rcba), PciConfig(0));
      }
      Unprotected(Run(locked, script, r.rcba, [Resume]));
    }
  }

  /** A resume leaves the recorded controls if their record was accepted, and none otherwise. */
  lemma ReplayControls(r: Regs, locked: Regs, a: Accepts)
    ensures ReplayAll(S3Reset(r, locked.rcba), Recorded(locked, a)).biosCntl == if a.bios then locked.biosCntl else 0
  {
    hide Pr0For, SpiBar, MmioWrite, WithLatch, ReplayAll, Recorded;
    var r0 := S3Reset(r, locked.rcba);
    ReplayRecorded(r0, locked, a);
    OrZero(locked.biosCntl);
  }

  ghost predicate AlwaysArmed(r: Regs, script: seq<Record>, boot: nat) {
    forall events :: Bit(Run(r, script, boot, events).biosCntl, 1) == 1
  }

  lemma {:induction false} RunArmed(r: Regs, locked: Regs, a: Accepts, events: seq<Event>)
    requires a.bios && Bit(r.biosCntl, 1) == 1 && Bit(locked.biosCntl, 1) == 1
    ensures Bit(Run(r, Recorded(locked, a), locked.rcba, events).biosCntl, 1) == 1
  {
    hide Recorded, MmioWrite, ReplayAll, And, Or, Bit;
    if events != [] {
      var n := |events| - 1;
      RunArmed(r, locked, a, events[..n]);
      var before := Run(r, Recorded(locked, a), locked.rcba, events[..n]);
      match events[n]
      case Mmio(addr, v) =>
      case Bios(v) =>
        OrBit(v, And(before.biosCntl, BLE), 1);
        BitAnd(before.biosCntl, BLE, 1);
        MaskBits(1);
      case Rcba(v) =>
      case Resume => ReplayControls(before, locked, a);
    }
  }

  /** The lock stays armed through every later run if and only if the record of
      the controls was accepted.
    */
  lemma ArmedLastsIff(r: Regs, s3: bool, a: Accepts)
    ensures
      var locked := LockedDown(r);
      AlwaysArmed(locked, if s3 then Recorded(locked, a) else [], r.rcba) <==> s3 && a.bios
  {
    hide LockedDown, Recorded, Run, ReplayAll, Bit, And, Or, ControlsLocked;
    var locked := LockedDown(r);
    LockedKeepsBase(r);
    LockdownControls(r);
    ControlsArmed(locked.biosCntl, r.biosCntl);
    var script := if s3 then Recorded(locked, a) else [];
    if s3 && a.bios {
      forall events ensures Bit(Run(locked, script, r.rcba, events).biosCntl, 1) == 1 {
        RunArmed(locked, locked, a, events);
      }
    } else {
      RunResume(locked, script, r.rcba);
      if s3 {
        ReplayControls(locked, locked, a);
      } else {
        ReplayOne(S3Reset(locked, r.rcba), PciConfig(0));
      }
      NoBits(1);
      assert Bit(Run(locked, script, r.rcba, [Resume]).biosCntl, 1) == 0;
    }
  }

  lemma ControlsArmed(now: nat, was: nat)
    requires ControlsLocked(now, was)
    ensures Bit(now, 1) == 1
  {
  }

  lemma LockedKeepsBase(r: Regs)
    ensures LockedDown(r).rcba == r.rcba
  {
    hide MmioWrite, SpiBar, Pr0For, WithLatch, LockedControl, Latched, And, Or;
  }

  /** Recording the latch before the range would leave the range empty on resume. */
  lemma OrderMatters(r: Regs, locked: Regs)
    requires Enabled(locked.rcba)
    ensures
      var bar := SpiBar(locked.rcba);
      var latch, range := Memory(bar + R_HSFS, WithLatch(locked.hsfs)), Memory(bar + R_PR0, Pr0For(locked.freg2));
      !Protected(ReplayAll(S3Reset(r, locked.rcba), [latch] + [range]))
  {
    hide Pr0For, SpiBar, MmioWrite, Enabled, WithLatch, Latched, Decode, Protected, ReplayAll;
    var bar := SpiBar(locked.rcba);
    var latch, range := Memory(bar + R_HSFS, WithLatch(locked.hsfs)), Memory(bar + R_PR0, Pr0For(locked.freg2));
    var r0 := S3Reset(r, locked.rcba);
    var r1 := MmioWrite(r0, bar + R_HSFS, WithLatch(locked.hsfs));
    WriteHsfs(r0, WithLatch(locked.hsfs));
    WithLatchSet(locked.hsfs);
    WritePr0(r1, Pr0For(locked.freg2));
    ReplayConcat(r0, [latch], [range]);
    ReplayOne(r0, latch);
    ReplayOne(r1, range);
    Unprotected(r1);
  }
}

/** The four-level x86-64 page walk (Intel SDM Volume 3A, section 4.5) over
    guest physical memory, and virtual reads chunked by page.
  */
module PageWalk {
  import opened Bits
  import opened Common
  import opened GuestMemory

  const PT_PRESENT: nat := 0x1
  const PT_PAGESIZE: nat := 0x80
  const PT_ADDR_MASK: nat := 0x000F_FFFF_FFFF_F000
  const PAGE_SIZE: nat := 4096

  // ------------------------------------------------------- the walk as written

  function Pml4Index(va: u64): nat { And(va / 0x80_0000_0000, 0x1FF) }
  function PdptIndex(va: u64): nat { And(va / 0x4000_0000, 0x1FF) }
  function PdIndex(va: u64): nat { And(va / 0x20_0000, 0x1FF) }
  function PtIndex(va: u64): nat { And(va / 0x1000, 0x1FF) }

  /** Bytes as a little-endian word. */
  function Word(b: seq<byte>): (r: nat)
    ensures r < Pow2(8 * |b|)
  {
    if b == [] then 0
    else
      assert Pow2(8 * |b|) == 256 * Pow2(8 * |b[1..]|) by { Pow2Add(8, 8 * |b[1..]|); }
      (b[0] as int) + 256 * Word(b[1..])
  }

  /** A page-table entry, if memory holds it and it is present. */
  function Entry(ram: seq<byte>, table: nat, index: nat): Option<nat> {
    var addr := table + index * 8;
    if addr + 8 > |ram| then None
    else
      var e := Word(ram[addr..addr + 8]);
      if And(e, PT_PRESENT) == 0 then None else Some(e)
  }

  /** The entry that maps an address, and the size of the page it maps. */
  datatype Leaf = Leaf(entry: nat, bits: nat)

  function Walk(ram: seq<byte>, cr3: u64, va: u64): (r: Option<Leaf>)
    ensures r.Some? ==> r.value.bits in {12, 21, 30}
  {
    WalkBy(ram, cr3, Pml4Index(va), PdptIndex(va), PdIndex(va), PtIndex(va))
  }

  /** The walk along the given table indices. */
  function WalkBy(ram: seq<byte>, cr3: u64, i4: nat, i3: nat, i2: nat, i1: nat): (r: Option<Leaf>)
    ensures r.Some? ==> r.value.bits in {12, 21, 30}
  {
    var e4 := Entry(ram, And(cr3, PT_ADDR_MASK), i4);
    if e4.None? then None else
    var e3 := Entry(ram, And(e4.value, PT_ADDR_MASK), i3);
    if e3.None? then None else
    if And(e3.value, PT_PAGESIZE) != 0 then Some(Leaf(e3.value, 30)) else
    var e2 := Entry(ram, And(e3.value, PT_ADDR_MASK), i2);
    if e2.None? then None else
    if And(e2.value, PT_PAGESIZE) != 0 then Some(Leaf(e2.value, 21)) else
    var e1 := Entry(ram, And(e2.value, PT_ADDR_MASK), i1);
    if e1.None? then None else Some(Leaf(e1.value, 12))
  }

  /** The bits of a leaf entry that name its frame. */
  function FrameMask(bits: nat): nat {
    if bits == 30 then 0x000F_FFFF_C000_0000 else if bits == 21 then 0x000F_FFFF_FFE0_0000 else PT_ADDR_MASK
  }

  /** The bits of an address that are its offset in a page. */
  function OffsetMask(bits: nat): nat {
    if bits == 30 then 0x3FFF_FFFF else if bits == 21 then 0x1F_FFFF else 0xFFF
  }

  /** The physical address a leaf gives a virtual one. */
  function Place(leaf: Leaf, va: u64): nat {
    Or(And(leaf.entry, FrameMask(leaf.bits)), And(va, OffsetMask(leaf.bits)))
  }

  function Translate(ram: seq<byte>, cr3: u64, va: u64): Option<nat> {
    var leaf := Walk(ram, cr3, va);
    if leaf.None? then None else Some(Place(leaf.value, va))
  }

  // ------------------------------------------------- masks are div, mod and add

  /** The frame of a leaf: its entry's address field above the page offset. */
  function Frame(leaf: Leaf): nat
    requires leaf.bits <= 52
  {
    FieldAligned(leaf.entry, leaf.bits, 52);
    leaf.entry % Pow2(52) - leaf.entry % Pow2(leaf.bits)
  }

  lemma MasksAre(bits: nat)
    requires bits in {12, 21, 30}
    ensures Pow2(bits) <= Pow2(52)
    ensures FrameMask(bits) == Pow2(52) - Pow2(bits) && OffsetMask(bits) == Pow2(bits) - 1
  {
    Pow2Values();
  }

  /** Mask and join place an address at its offset into an aligned frame. */
  lemma PlaceIsFramePlusOffset(leaf: Leaf, va: u64)
    requires leaf.bits in {12, 21, 30}
    ensures Frame(leaf) % Pow2(leaf.bits) == 0 && Frame(leaf) < Pow2(52)
    ensures Place(leaf, va) == Frame(leaf) + va % Pow2(leaf.bits)
  {
    hide And, Or, Pow2, FrameMask, OffsetMask;
    MasksAre(leaf.bits);
    FieldAligned(leaf.entry, leaf.bits, 52);
    FieldOr(leaf.entry, va, leaf.bits, 52);
  }

  // ------------------------------------- the translation by address bits and bytes

  /** The table a word names: its bits 12 to 51. */
  function TableNamed(x: nat): nat {
    x % 0x10_0000_0000_0000 / 0x1000 * 0x1000
  }

  /** Four bytes as a number, lowest first. */
  function Quad(b0: byte, b1: byte, b2: byte, b3: byte): nat {
    (b0 as int) + 0x100 * (b1 as int) + 0x1_0000 * (b2 as int) + 0x100_0000 * (b3 as int)
  }

  /** The eight bytes at an address, lowest first, are a present entry. */
  predicate PresentAt(ram: seq<byte>, at: nat, e: nat) {
    && at + 8 <= |ram|
    && e == Quad(ram[at], ram[at + 1], ram[at + 2], ram[at + 3])
            + WORD32 * Quad(ram[at + 4], ram[at + 5], ram[at + 6], ram[at + 7])
    && e % 2 == 1
  }

  predicate AbsentAt(ram: seq<byte>, at: nat) {
    at + 8 > |ram| || ram[at] % 2 == 0
  }

  predicate IsHuge(e: nat) {
    e / 128 % 2 == 1
  }

  /** Where the entry for an address is in the table a word names, by level. */
  function At4(x: nat, va: u64): nat { TableNamed(x) + 8 * (va / 0x80_0000_0000 % 512) }
  function At3(x: nat, va: u64): nat { TableNamed(x) + 8 * (va / 0x4000_0000 % 512) }
  function At2(x: nat, va: u64): nat { TableNamed(x) + 8 * (va / 0x20_0000 % 512) }
  function At1(x: nat, va: u64): nat { TableNamed(x) + 8 * (va / 0x1000 % 512) }

  /** An address in the frame a leaf entry names: its bits up to 51, above the page. */
  function In1G(e: nat, va: u64): nat {
    e % 0x10_0000_0000_0000 / 0x4000_0000 * 0x4000_0000 + va % 0x4000_0000
  }

  function In2M(e: nat, va: u64): nat {
    e % 0x10_0000_0000_0000 / 0x20_0000 * 0x20_0000 + va % 0x20_0000
  }

  function In4K(e: nat, va: u64): nat {
    e % 0x10_0000_0000_0000 / 0x1000 * 0x1000 + va % 0x1000
  }

  /** The tables map an address by a page of one gigabyte, two megabytes or four kilobytes. */
  ghost predicate Maps1G(ram: seq<byte>, cr3: u64, va: u64, pa: nat) {
    exists e4: nat, e3: nat ::
      && PresentAt(ram, At4(cr3, va), e4) && PresentAt(ram, At3(e4, va), e3) && IsHuge(e3)
      && pa == In1G(e3, va)
  }

  ghost predicate Maps2M(ram: seq<byte>, cr3: u64, va: u64, pa: nat) {
    exists e4: nat, e3: nat, e2: nat ::
      && PresentAt(ram, At4(cr3, va), e4) && PresentAt(ram, At3(e4, va), e3) && !IsHuge(e3)
      && PresentAt(ram, At2(e3, va), e2) && IsHuge(e2)
      && pa == In2M(e2, va)
  }

  ghost predicate Maps4K(ram: seq<byte>, cr3: u64, va: u64, pa: nat) {
    exists e4: nat, e3: nat, e2: nat, e1: nat ::
      && PresentAt(ram, At4(cr3, va), e4) && PresentAt(ram, At3(e4, va), e3) && !IsHuge(e3)
      && PresentAt(ram, At2(e3, va), e2) && !IsHuge(e2) && PresentAt(ram, At1(e2, va), e1)
      && pa == In4K(e1, va)
  }

  lemma WordIs(b: seq<byte>)
    requires |b| == 8
    ensures Word(b) == Quad(b[0], b[1], b[2], b[3]) + WORD32 * Quad(b[4], b[5], b[6], b[7])
  {
    Word4(b[..4]);
    Word4(b[4..]);
    WordConcat4(b);
  }

  lemma Word4(b: seq<byte>)
    requires |b| == 4
    ensures Word(b) == Quad(b[0], b[1], b[2], b[3])
  {
    assert b[1..][1..] == b[2..] && b[2..][1..] == b[3..] && b[3..][1..] == [];
    assert Word(b[3..]) == b[3] && Word(b[2..]) == (b[2] as int) + 256 * Word(b[3..]);
  }

  lemma WordConcat4(b: seq<byte>)
    requires |b| == 8
    ensures Word(b) == Word(b[..4]) + WORD32 * Word(b[4..])
  {
    var c := b[..4];
    assert b[1..][1..] == b[2..] && b[2..][1..] == b[3..] && b[3..][1..] == b[4..];
    assert Word(b[3..]) == (b[3] as int) + 256 * Word(b[4..]) && Word(b[2..]) == (b[2] as int) + 256 * Word(b[3..]);
    Word4(c);
  }

  lemma TableIs(x: nat)
    ensures And(x, PT_ADDR_MASK) == TableNamed(x)
  {
    hide And, Pow2;
    Pow2Values();
    AndField(x, 12, 52);
    FieldCut(x, 0x1000, 0x100_0000_0000);
  }

  lemma FlagsAre(e: nat)
    ensures And(e, PT_PRESENT) == e % 2
    ensures And(e, PT_PAGESIZE) != 0 <==> IsHuge(e)
  {
    hide And, Pow2;
    PowersBelow256();
    AndLowMask(e, 1);
    AndField(e, 7, 8);
    assert And(e, PT_PAGESIZE) == e % 256 - e % 128;
    DivDiv(e, 128, 2);
  }

  lemma PowersBelow256()
    ensures Pow2(1) == 2 && Pow2(7) == 128 && Pow2(8) == 256
  {
    assert Pow2(3) == 8;
  }

  lemma IndicesAre(va: u64)
    ensures Pml4Index(va) == va / 0x80_0000_0000 % 512 && PdptIndex(va) == va / 0x4000_0000 % 512
    ensures PdIndex(va) == va / 0x20_0000 % 512 && PtIndex(va) == va / 0x1000 % 512
  {
    assert Pow2(1) == 2;
    hide And, Pow2;
    Pow2Values();
    Pow2Add(8, 1);
    AndLowMask(va / 0x80_0000_0000, 9);
    AndLowMask(va / 0x4000_0000, 9);
    AndLowMask(va / 0x20_0000, 9);
    AndLowMask(va / 0x1000, 9);
  }

  lemma EightBytes(ram: seq<byte>, at: nat)
    requires at + 8 <= |ram|
    ensures Word(ram[at..at + 8]) == Quad(ram[at], ram[at + 1], ram[at + 2], ram[at + 3])
                                     + WORD32 * Quad(ram[at + 4], ram[at + 5], ram[at + 6], ram[at + 7])
    ensures Word(ram[at..at + 8]) % 2 == ram[at] % 2
  {
    hide Word;
    var b := ram[at..at + 8];
    WordIs(b);
    var k := 0x80 * (b[1] as int) + 0x8000 * (b[2] as int) + 0x80_0000 * (b[3] as int)
             + 0x8000_0000 * Quad(b[4], b[5], b[6], b[7]);
    assert Word(b) == b[0] as int + 2 * k;
    ModShift(b[0], 2, k);
  }

  /** Reading an entry is finding its bytes. */
  lemma EntryIs(ram: seq<byte>, x: nat, index: nat)
    ensures Found(ram, TableNamed(x) + 8 * index, Entry(ram, And(x, PT_ADDR_MASK), index))
  {
    hide And, Word, TableNamed, Quad, IsHuge;
    TableIs(x);
    var at := TableNamed(x) + 8 * index;
    if at + 8 <= |ram| {
      EightBytes(ram, at);
      FlagsAre(Word(ram[at..at + 8]));
    }
  }

  /** Bits `a` to `a * b` of a word, in place. */
  lemma FieldCut(x: nat, a: nat, b: nat)
    requires a > 0 && b > 0
    ensures a * b > 0 && x % (a * b) - x % a == x % (a * b) / a * a
  {
    DivDiv(x, a, b);
    var k := (x / a) % b;
    DivModUnique(x % (a * b), a, k, x % a);
  }

  lemma PlaceIs(e: nat, va: u64)
    ensures Place(Leaf(e, 30), va) == In1G(e, va)
    ensures Place(Leaf(e, 21), va) == In2M(e, va)
    ensures Place(Leaf(e, 12), va) == In4K(e, va)
  {
    hide Place, Pow2;
    Pow2Values();
    FieldCut(e, 0x4000_0000, 0x40_0000);
    FieldCut(e, 0x20_0000, 0x8000_0000);
    FieldCut(e, 0x1000, 0x100_0000_0000);
    PlaceIsFramePlusOffset(Leaf(e, 30), va);
    PlaceIsFramePlusOffset(Leaf(e, 21), va);
    PlaceIsFramePlusOffset(Leaf(e, 12), va);
  }

  /** The read of an entry found the present entry at an address, or its absence. */
  ghost predicate Found(ram: seq<byte>, at: nat, r: Option<nat>) {
    && (r.None? <==> AbsentAt(ram, at))
    && forall e: nat :: PresentAt(ram, at, e) <==> r == Some(e)
  }

  lemma LevelsFound(ram: seq<byte>, x: nat, va: u64)
    ensures Found(ram, At4(x, va), Entry(ram, And(x, PT_ADDR_MASK), Pml4Index(va)))
    ensures Found(ram, At3(x, va), Entry(ram, And(x, PT_ADDR_MASK), PdptIndex(va)))
    ensures Found(ram, At2(x, va), Entry(ram, And(x, PT_ADDR_MASK), PdIndex(va)))
    ensures Found(ram, At1(x, va), Entry(ram, And(x, PT_ADDR_MASK), PtIndex(va)))
  {
    hide And, Entry, Found, TableNamed, Pml4Index, PdptIndex, PdIndex, PtIndex;
    IndicesAre(va);
    EntryIs(ram, x, Pml4Index(va));
    EntryIs(ram, x, PdptIndex(va));
    EntryIs(ram, x, PdIndex(va));
    EntryIs(ram, x, PtIndex(va));
  }

  /** An address translates to another if and only if the bytes of the tables
      map it there, by a page of one of the three sizes.
    */
  lemma TranslateIff(ram: seq<byte>, cr3: u64, va: u64, pa: nat)
    ensures Translate(ram, cr3, va) == Some(pa) <==>
      Maps1G(ram, cr3, va, pa) || Maps2M(ram, cr3, va, pa) || Maps4K(ram, cr3, va, pa)
  {
    hide And, Entry, Place, PresentAt, AbsentAt, IsHuge, At4, At3, At2, At1;
    hide Pml4Index, PdptIndex, PdIndex, PtIndex, In1G, In2M, In4K;
    var e4 := Entry(ram, And(cr3, PT_ADDR_MASK), Pml4Index(va));
    LevelsFound(ram, cr3, va);
    if e4.Some? {
      var e3 := Entry(ram, And(e4.value, PT_ADDR_MASK), PdptIndex(va));
      LevelsFound(ram, e4.value, va);
      if e3.Some? {
        FlagsAre(e3.value);
        PlaceIs(e3.value, va);
        var e2 := Entry(ram, And(e3.value, PT_ADDR_MASK), PdIndex(va));
        LevelsFound(ram, e3.value, va);
        if e2.Some? {
          FlagsAre(e2.value);
          PlaceIs(e2.value, va);
          var e1 := Entry(ram, And(e2.value, PT_ADDR_MASK), PtIndex(va));
          LevelsFound(ram, e2.value, va);
          if e1.Some? {
            PlaceIs(e1.value, va);
          }
        }
      }
    }
  }

  /** An address with an entry missing on its way, at any level, has no translation. */
  lemma AbsentFails(ram: seq<byte>, cr3: u64, va: u64, e4: nat, e3: nat, e2: nat)
    requires
      || AbsentAt(ram, At4(cr3, va))
      || (PresentAt(ram, At4(cr3, va), e4)
          && (|| AbsentAt(ram, At3(e4, va))
              || (PresentAt(ram, At3(e4, va), e3) && !IsHuge(e3)
                  && (|| AbsentAt(ram, At2(e3, va))
                      || (PresentAt(ram, At2(e3, va), e2) && !IsHuge(e2) && AbsentAt(ram, At1(e2, va)))))))
    ensures Translate(ram, cr3, va) == None
  {
    hide And, Entry, PresentAt, AbsentAt, IsHuge, At4, At3, At2, At1;
    hide Pml4Index, PdptIndex, PdIndex, PtIndex;
    LevelsFound(ram, cr3, va);
    LevelsFound(ram, e4, va);
    LevelsFound(ram, e3, va);
    LevelsFound(ram, e2, va);
    FlagsAre(e3);
    FlagsAre(e2);
  }

  // ---------------------------------------------------------------- page locality

  /** Addresses in one page have the table indices above that page in common. */
  lemma SameUpperIndices(va: u64, vb: u64, bits: nat)
    requires bits in {12, 21, 30} && va / Pow2(bits) == vb / Pow2(bits)
    ensures Pml4Index(va) == Pml4Index(vb) && PdptIndex(va) == PdptIndex(vb)
    ensures bits <= 21 ==> PdIndex(va) == PdIndex(vb)
    ensures bits == 12 ==> PtIndex(va) == PtIndex(vb)
  {
    Pow2Values();
    if bits == 12 { SameQuotient(va, vb, 0x1000, 0x200); }
    if bits <= 21 { SameQuotient(va, vb, 0x20_0000, 0x200); }
    SameQuotient(va, vb, 0x4000_0000, 0x200);
  }

  lemma SameQuotient(va: nat, vb: nat, page: nat, n: nat)
    requires page > 0 && n > 0 && va / page == vb / page
    ensures va / (page * n) == vb / (page * n)
  {
    DivDiv(va, page, n);
    DivDiv(vb, page, n);
  }

  /** The size of the page a walk ends in; a failed walk fails for its 4K page. */
  function PageBits(ram: seq<byte>, cr3: u64, va: u64): nat {
    var w := Walk(ram, cr3, va);
    if w.Some? then w.value.bits else 12
  }

  /** Two addresses in the page a walk ends in take the same walk. */
  lemma WalkLocal(ram: seq<byte>, cr3: u64, va: u64, vb: u64)
    requires va / Pow2(PageBits(ram, cr3, va)) == vb / Pow2(PageBits(ram, cr3, va))
    ensures Walk(ram, cr3, va) == Walk(ram, cr3, vb)
  {
    SameUpperIndices(va, vb, PageBits(ram, cr3, va));
  }

  /** Translation moves a whole page rigidly, whatever the leaf's size. */
  lemma TranslateRigid(ram: seq<byte>, cr3: u64, va: u64, vb: u64)
    requires Walk(ram, cr3, va).Some?
    requires va / Pow2(PageBits(ram, cr3, va)) == vb / Pow2(PageBits(ram, cr3, va))
    ensures Translate(ram, cr3, va).Some? && Translate(ram, cr3, vb).Some?
    ensures Translate(ram, cr3, vb).value - Translate(ram, cr3, va).value == vb - va
  {
    WalkLocal(ram, cr3, va, vb);
    PlaceRigid(Walk(ram, cr3, va).value, va, vb);
  }

  lemma PlaceRigid(leaf: Leaf, va: u64, vb: u64)
    requires leaf.bits in {12, 21, 30} && va / Pow2(leaf.bits) == vb / Pow2(leaf.bits)
    ensures Place(leaf, vb) - Place(leaf, va) == vb - va
  {
    PlaceIsFramePlusOffset(leaf, va);
    PlaceIsFramePlusOffset(leaf, vb);
    SameQuotientOffset(va, vb, Pow2(leaf.bits));
  }

  lemma SameQuotientOffset(va: nat, vb: nat, page: nat)
    requires page > 0 && va / page == vb / page
    ensures vb % page - va % page == vb - va
  {
    assert va == page * (va / page) + va % page && vb == page * (vb / page) + vb % page;
  }

  lemma SameLargerPage(va: u64, vb: u64, bits: nat)
    requires va / 0x1000 == vb / 0x1000 && bits in {12, 21, 30}
    ensures va / Pow2(bits) == vb / Pow2(bits)
  {
    Pow2Values();
    if bits == 21 { SameQuotient(va, vb, 0x1000, 0x200); }
    if bits == 30 { SameQuotient(va, vb, 0x1000, 0x4_0000); }
  }

  /** Within a 4K page the translation of a neighbour is the neighbour of the
      translation, or both addresses fail.
    */
  lemma TranslateInPage(ram: seq<byte>, cr3: u64, va: u64, k: nat)
    requires va % PAGE_SIZE + k < PAGE_SIZE
    ensures va + k < WORD64
    ensures Translate(ram, cr3, va).None? <==> Translate(ram, cr3, va + k).None?
    ensures Translate(ram, cr3, va).Some? ==> Translate(ram, cr3, va + k).value == Translate(ram, cr3, va).value + k
  {
    hide Walk, Place;
    WalkInPage(ram, cr3, va, va + k);
    PlaceNeighbour(Walk(ram, cr3, va), va, k);
  }

  lemma PlaceNeighbour(w: Option<Leaf>, va: u64, k: nat)
    requires va + k < WORD64 && va / 0x1000 == (va + k) / 0x1000
    requires w.Some? ==> w.value.bits in {12, 21, 30}
    ensures w.Some? ==> Place(w.value, va + k) == Place(w.value, va) + k
  {
    if w.Some? {
      SameLargerPage(va, va + k, w.value.bits);
      PlaceRigid(w.value, va, va + k);
    }
  }

  lemma WalkInPage(ram: seq<byte>, cr3: u64, va: u64, vb: u64)
    requires va / 0x1000 == vb / 0x1000
    ensures Walk(ram, cr3, va) == Walk(ram, cr3, vb)
  {
    SameLargerPage(va, vb, PageBits(ram, cr3, va));
    WalkLocal(ram, cr3, va, vb);
  }

  // ------------------------------------------------------------ the walk running

  /** The transfer layer failed during calls `from .. to`. */
  ghost predicate Trouble(s: Session, from: nat, to: nat) {
    s.qemuPid <= 0 || GaveUp(s.oracle, from, to)
  }

  lemma TroubleMono(s: Session, from: nat, from': nat, to: nat)
    requires from <= from' && Trouble(s, from', to)
    ensures Trouble(s, from, to)
  {
    if s.qemuPid > 0 { GaveUpMono(s.oracle, from, from', to, to); }
  }

  /** Reads one present page-table entry. */
  method ReadEntry(s: Session, table: nat, index: nat) returns (r: Option<nat>)
    requires s.Valid() && table <= PT_ADDR_MASK && index <= 0x1FF
    modifies s`calls
    ensures r.Some? ==> r == Entry(s.PhysicalMemory(), table, index)
    ensures r.None? ==> Entry(s.PhysicalMemory(), table, index).None? || Trouble(s, old(s.calls), s.calls)
    ensures old(s.calls) <= s.calls
  {
    var ok, bytes := s.ReadPhysical(table + index * 8, 8);
    if !ok {
      return None;
    }
    var e := Word(bytes);
    r := if And(e, PT_PRESENT) == 0 then None else Some(e);
  }

  /** Translates a guest virtual address by walking the guest's page tables. */
  method GvaToGpa(s: Session, cr3: u64, gva: u64) returns (r: Option<nat>)
    requires s.Valid()
    modifies s`calls
    ensures r.Some? ==> r == Translate(s.PhysicalMemory(), cr3, gva)
    ensures r.None? ==> Translate(s.PhysicalMemory(), cr3, gva).None? || Trouble(s, old(s.calls), s.calls)
    ensures old(s.calls) <= s.calls
  {
    var leaf := FindLeaf(s, cr3, Pml4Index(gva), PdptIndex(gva), PdIndex(gva), PtIndex(gva));
    if leaf.None? {
      return None;
    }
    r := Some(Place(leaf.value, gva));
  }

  method FindLeaf(s: Session, cr3: u64, i4: nat, i3: nat, i2: nat, i1: nat) returns (r: Option<Leaf>)
    requires s.Valid() && i4 <= 0x1FF && i3 <= 0x1FF && i2 <= 0x1FF && i1 <= 0x1FF
    modifies s`calls
    ensures r.Some? ==> r == WalkBy(s.PhysicalMemory(), cr3, i4, i3, i2, i1)
    ensures r.None? ==>
      WalkBy(s.PhysicalMemory(), cr3, i4, i3, i2, i1).None? || Trouble(s, old(s.calls), s.calls)
    ensures old(s.calls) <= s.calls
  {
    ghost var ram, c := s.PhysicalMemory(), s.calls;
    var e := ReadEntry(s, And(cr3, PT_ADDR_MASK), i4);
    if e.None? {
      return None;
    }
    var before := s.calls;
    e := ReadEntry(s, And(e.value, PT_ADDR_MASK), i3);
    if e.None? {
      if Trouble(s, before, s.calls) { TroubleMono(s, c, before, s.calls); }
      return None;
    }
    if And(e.value, PT_PAGESIZE) != 0 {
      return Some(Leaf(e.value, 30));
    }
    before := s.calls;
    e := ReadEntry(s, And(e.value, PT_ADDR_MASK), i2);
    if e.None? {
      if Trouble(s, before, s.calls) { TroubleMono(s, c, before, s.calls); }
      return None;
    }
    if And(e.value, PT_PAGESIZE) != 0 {
      return Some(Leaf(e.value, 21));
    }
    before := s.calls;
    e := ReadEntry(s, And(e.value, PT_ADDR_MASK), i1);
    if e.None? {
      if Trouble(s, before, s.calls) { TroubleMono(s, c, before, s.calls); }
      return None;
    }
    r := Some(Leaf(e.value, 12));
  }

  // -------------------------------------------------------------- virtual memory

  /** The byte at a virtual address, translated on its own. */
  function VirtualByte(ram: seq<byte>, cr3: u64, va: u64): Option<byte> {
    var g := Translate(ram, cr3, va);
    if g.Some? && g.value < |ram| then Some(ram[g.value]) else None
  }

  lemma TranslateBound(ram: seq<byte>, cr3: u64, va: u64)
    requires Translate(ram, cr3, va).Some?
    ensures Translate(ram, cr3, va).value < WORD64
  {
    PlaceIsFramePlusOffset(Walk(ram, cr3, va).value, va);
    Pow2Values();
  }

  /** A chunk inside one page, read at its translated address, is the bytes
      translated one by one.
    */
  lemma ChunkIsBytewise(ram: seq<byte>, cr3: u64, va: u64, n: nat, i: nat)
    requires va % PAGE_SIZE + n <= PAGE_SIZE && i < n
    requires Translate(ram, cr3, va).Some?
    ensures va + i < WORD64
    ensures
      var g := Translate(ram, cr3, va).value;
      VirtualByte(ram, cr3, va + i) == if g + i < |ram| then Some(ram[g + i]) else None
  {
    TranslateInPage(ram, cr3, va, i);
  }

  /** Some of the `n` bytes at an address is not readable. */
  ghost predicate Unreadable(ram: seq<byte>, cr3: u64, gva: u64, n: nat) {
    exists i: nat :: i < n && ByteAt(ram, cr3, gva, i).None?
  }

  /** Every byte of the range is readable, and `buf` holds them. */
  ghost predicate IsVirtualRange(ram: seq<byte>, cr3: u64, gva: u64, buf: seq<byte>) {
    forall i :: 0 <= i < |buf| ==> ByteAt(ram, cr3, gva, i) == Some(buf[i])
  }

  /** The byte `i` places after a virtual address. */
  function ByteAt(ram: seq<byte>, cr3: u64, gva: u64, i: nat): Option<byte> {
    VirtualByte(ram, cr3, Wrap64(gva + i))
  }

  /** Reads the part of a virtual range that lies in the first page. */
  method ReadPageChunk(s: Session, cr3: u64, gva: u64, want: nat) returns (ok: bool, data: seq<byte>)
    requires s.Valid() && want > 0
    modifies s`calls
    ensures old(s.calls) <= s.calls
    ensures ok ==> 0 < |data| <= want && IsVirtualRange(s.PhysicalMemory(), cr3, gva, data)
    ensures !ok ==> Trouble(s, old(s.calls), s.calls) || Unreadable(s.PhysicalMemory(), cr3, gva, want)
  {
    hide ByteAt, Translate;
    ghost var ram := s.PhysicalMemory();
    var remaining := PAGE_SIZE - gva % PAGE_SIZE;
    var chunk := if want > remaining then remaining else want;
    var gpa := GvaToGpa(s, cr3, gva);
    if gpa.None? {
      if Translate(ram, cr3, gva).None? { NoTranslation(ram, cr3, gva); }
      return false, [];
    }
    TranslateBound(ram, cr3, gva);
    ghost var before := s.calls;
    ok, data := s.ReadPhysical(gpa.value, chunk);
    if ok {
      ChunkReadable(ram, cr3, gva, data);
    } else if Trouble(s, before, s.calls) {
      TroubleMono(s, old(s.calls), before, s.calls);
    } else {
      ChunkUnreadable(ram, cr3, gva, chunk, want);
    }
  }

  lemma ChunkReadable(ram: seq<byte>, cr3: u64, gva: u64, data: seq<byte>)
    requires gva % PAGE_SIZE + |data| <= PAGE_SIZE && Translate(ram, cr3, gva).Some?
    requires var g := Translate(ram, cr3, gva).value; g + |data| <= |ram| && data == ram[g..g + |data|]
    ensures IsVirtualRange(ram, cr3, gva, data)
  {
    hide VirtualByte, Translate;
    forall i | 0 <= i < |data| ensures ByteAt(ram, cr3, gva, i) == Some(data[i]) {
      ChunkIsBytewise(ram, cr3, gva, |data|, i);
    }
  }

  lemma ChunkUnreadable(ram: seq<byte>, cr3: u64, gva: u64, n: nat, want: nat)
    requires 0 < n <= want && gva % PAGE_SIZE + n <= PAGE_SIZE && Translate(ram, cr3, gva).Some?
    requires Translate(ram, cr3, gva).value + n > |ram|
    ensures Unreadable(ram, cr3, gva, want)
  {
    hide VirtualByte, Translate;
    ChunkIsBytewise(ram, cr3, gva, n, n - 1);
    assert ByteAt(ram, cr3, gva, n - 1).None?;
  }

  lemma NoTranslation(ram: seq<byte>, cr3: u64, gva: u64)
    requires Translate(ram, cr3, gva).None?
    ensures ByteAt(ram, cr3, gva, 0).None?
  {
  }

  lemma RangeNext(ram: seq<byte>, cr3: u64, gva: u64, buf: seq<byte>, data: seq<byte>)
    requires IsVirtualRange(ram, cr3, gva, buf) && IsVirtualRange(ram, cr3, Wrap64(gva + |buf|), data)
    ensures IsVirtualRange(ram, cr3, gva, buf + data)
  {
    hide VirtualByte;
    forall i | 0 <= i < |buf + data| ensures ByteAt(ram, cr3, gva, i) == Some((buf + data)[i]) {
      if i >= |buf| {
        WrapTwice(gva, |buf|, i - |buf|);
        assert ByteAt(ram, cr3, Wrap64(gva + |buf|), i - |buf|) == Some(data[i - |buf|]);
      }
    }
  }

  lemma UnreadableLater(ram: seq<byte>, cr3: u64, gva: u64, done: nat, n: nat)
    requires Unreadable(ram, cr3, Wrap64(gva + done), n)
    ensures Unreadable(ram, cr3, gva, done + n)
  {
    hide VirtualByte;
    var i: nat :| i < n && ByteAt(ram, cr3, Wrap64(gva + done), i).None?;
    WrapTwice(gva, done, i);
    assert ByteAt(ram, cr3, gva, done + i).None?;
  }

  /** Reads guest virtual memory page by page. On success every byte is the one
      a translation of its own address gives, for any mixture of page sizes; a
      read fails only if some byte of the range has no such translation or the
      transfer layer fails.
    */
  method ReadVirtual(s: Session, cr3: u64, gva: u64, size: nat) returns (ok: bool, buf: seq<byte>)
    requires s.Valid()
    modifies s`calls
    ensures ok ==> |buf| == size > 0 && IsVirtualRange(s.PhysicalMemory(), cr3, gva, buf)
    ensures !ok ==>
      size == 0 || Trouble(s, old(s.calls), s.calls) || Unreadable(s.PhysicalMemory(), cr3, gva, size)
  {
    hide ByteAt;
    buf := [];
    if size == 0 {
      return false, buf;
    }
    ghost var ram := s.PhysicalMemory();
    var current := gva;
    while |buf| < size
      invariant |buf| <= size && current == Wrap64(gva + |buf|)
      invariant IsVirtualRange(ram, cr3, gva, buf)
      invariant s.Valid() && s.PhysicalMemory() == ram && old(s.calls) <= s.calls
    {
      ghost var before := s.calls;
      var moved, data := ReadPageChunk(s, cr3, current, size - |buf|);
      if !moved {
        if Trouble(s, before, s.calls) {
          TroubleMono(s, old(s.calls), before, s.calls);
        } else {
          UnreadableLater(ram, cr3, gva, |buf|, size - |buf|);
        }
        return false, buf;
      }
      RangeNext(ram, cr3, gva, buf, data);
      WrapTwice(gva, |buf|, |data|);
      buf := buf + data;
      current := Wrap64(current + |data|);
    }
    ok := true;
  }

  lemma WrapTwice(gva: u64, done: nat, n: nat)
    ensures Wrap64(Wrap64(gva + done) + n) == Wrap64(gva + (done + n))
  {
    var x := gva + done;
    ModShift(x % WORD64 + n, WORD64, x / WORD64);
    assert x % WORD64 + n + WORD64 * (x / WORD64) == x + n;
  }
}

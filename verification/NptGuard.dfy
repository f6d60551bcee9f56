/** The guard over protected regions: baselines, change-triggered reports,
    page arming, and the classification of a faulting address.
  */
module NptGuard {
  import opened Bits
  import opened Common
  import opened GuestMemory
  import opened PageWalk
  import opened RegionHash

  const MAX_GUARD_REGIONS: nat := 16
  const REGION_NAME_MAX: nat := 32
  const CHECK_INTERVAL_US: nat := 500_000
  const SYSCALL_ENTRIES: nat := 512
  const TABLE_SIZE: nat := 4096
  const TABLE_NAME := "sys_call_table"

  datatype Region = Region(
    name: string, gpa: u64, size: u64, critical: bool, baseline: u64, baselineValid: bool, lastAlert: u64)

  // ------------------------------------------------------------------ polling a region

  /** What one poll makes of a region, given its hash if it could be read. */
  function Polled(r: Region, reading: Option<u64>): Region {
    if !r.baselineValid || reading.None? then r
    else r.(lastAlert := if reading.value == r.baseline then 0 else reading.value)
  }

  predicate Reports(r: Region, reading: Option<u64>) {
    r.baselineValid && reading.Some? && reading.value != r.baseline && reading.value != r.lastAlert
  }

  /** A region after a history of polls since its baseline was taken. */
  function RegionAfter(r: Region, history: seq<Option<u64>>): Region {
    if history == [] then r else Polled(RegionAfter(r, history[..|history| - 1]), history[|history| - 1])
  }

  /** The last hash that a history could read. */
  function LastReadable(history: seq<Option<u64>>): Option<u64> {
    if history == [] then None
    else
      var last := history[|history| - 1];
      if last.Some? then last else LastReadable(history[..|history| - 1])
  }

  /** A region with a fresh baseline. */
  predicate Baselined(r: Region) {
    r.baselineValid && r.lastAlert == 0
  }

  lemma {:induction false} LastAlertIs(r: Region, history: seq<Option<u64>>)
    requires Baselined(r)
    ensures
      var now, last := RegionAfter(r, history), LastReadable(history);
      && now == r.(lastAlert := if last.None? || last.value == r.baseline then 0 else last.value)
  {
    if history != [] { LastAlertIs(r, history[..|history| - 1]); }
  }

  /** A zero hash right after a clean or missing reading is taken for no change. */
  predicate ZeroHashHidden(r: Region, history: seq<Option<u64>>, hash: u64) {
    var last := LastReadable(history);
    hash == 0 && r.baseline != 0 && (last.None? || last.value == r.baseline)
  }

  /** Over every history of tampering and restoring, a poll reports if and only
      if the hash differs from the baseline and from the last readable poll,
      except for the hidden zero hash.
    */
  lemma ReportsOnChange(r: Region, history: seq<Option<u64>>, hash: u64)
    requires Baselined(r)
    ensures
      var last := LastReadable(history);
      var changed := hash != r.baseline && (last.None? || last.value != hash);
      (Reports(RegionAfter(r, history), Some(hash)) <==> changed) <==> !ZeroHashHidden(r, history, hash)
  {
    LastAlertIs(r, history);
  }

  /** An edit of one byte of a region last seen clean is reported, unless the
      edited region hashes to zero.
    */
  lemma OneByteEditReported(r: Region, history: seq<Option<u64>>, clean: seq<byte>, i: nat, b: byte)
    requires Baselined(r) && r.baseline == HashOf(clean) && i < |clean| && b != clean[i]
    requires LastReadable(history) == Some(r.baseline) || LastReadable(history) == None
    ensures Reports(RegionAfter(r, history), Some(HashOf(clean[i := b]))) <==> HashOf(clean[i := b]) != 0
    ensures !Reports(RegionAfter(r, history), Some(HashOf(clean)))
  {
    hide HashOf;
    OneByteChangesHash(clean, i, b);
    LastAlertIs(r, history);
  }

  // ----------------------------------------------------------------- syscall table diffs

  /** Nine bytes, all but one of them as they were, whose hash is zero: the edit
      is not reported, as often as it is polled.
    */
  lemma ZeroHashMissed(r: Region, i: nat, b: byte, polls: nat)
    requires i < |ZeroBytes()|
    ensures
      var clean, edited := HashOf(ZeroBytes()[i := b]), HashOf(ZeroBytes());
      var watched := r.(baseline := clean, baselineValid := true, lastAlert := 0);
      b != ZeroBytes()[i] ==>
        clean != edited && !Reports(RegionAfter(watched, seq(polls, _ => Some(edited))), Some(edited))
  {
    hide HashOf, ZeroBytes;
    if b != ZeroBytes()[i] {
      ZeroHash();
      OneByteChangesHash(ZeroBytes(), i, b);
      var edited := HashOf(ZeroBytes());
      LastAlertIs(r.(baseline := HashOf(ZeroBytes()[i := b]), baselineValid := true, lastAlert := 0),
                  seq(polls, _ => Some(edited)));
    }
  }

  /** Entry `i` of the system call table. */
  function TableEntry(table: seq<byte>, i: nat): nat
    requires 8 * i + 8 <= |table|
  {
    Word(table[8 * i..8 * i + 8])
  }

  lemma {:induction false} WordInjective(a: seq<byte>, b: seq<byte>)
    requires |a| == |b| && Word(a) == Word(b)
    ensures a == b
  {
    if a != [] {
      var x, y := Word(a[1..]), Word(b[1..]);
      assert (a[0] as int) + 256 * x == (b[0] as int) + 256 * y;
      assert x == y && a[0] == b[0];
      WordInjective(a[1..], b[1..]);
      assert a == [a[0]] + a[1..] && b == [b[0]] + b[1..];
    }
  }

  /** Tables with the same entries are the same bytes. */
  lemma SameEntriesSameBytes(a: seq<byte>, b: seq<byte>)
    requires |a| == |b| == TABLE_SIZE
    requires forall i :: 0 <= i < SYSCALL_ENTRIES ==> TableEntry(a, i) == TableEntry(b, i)
    ensures a == b
  {
    forall k | 0 <= k < |a| ensures a[k] == b[k] {
      var i := k / 8;
      assert TableEntry(a, i) == TableEntry(b, i);
      WordInjective(a[8 * i..8 * i + 8], b[8 * i..8 * i + 8]);
      assert a[k] == a[8 * i..8 * i + 8][k - 8 * i];
      assert b[k] == b[8 * i..8 * i + 8][k - 8 * i];
    }
  }

  /** Tables with different hashes differ in an entry. */
  lemma MismatchHasEntry(clean: seq<byte>, current: seq<byte>)
    requires |clean| == |current| == TABLE_SIZE
    requires HashOf(clean) != HashOf(current)
    ensures exists i :: 0 <= i < SYSCALL_ENTRIES && TableEntry(clean, i) != TableEntry(current, i)
  {
    hide HashOf, TableEntry;
    if forall i :: 0 <= i < SYSCALL_ENTRIES ==> TableEntry(clean, i) == TableEntry(current, i) {
      SameEntriesSameBytes(clean, current);
    }
  }

  /** The entries, in order, in which two tables differ. */
  ghost predicate AreDiffs(clean: seq<byte>, current: seq<byte>, diffs: seq<nat>)
    requires |clean| == |current| == TABLE_SIZE
  {
    && (forall i: nat :: i in diffs <==> i < SYSCALL_ENTRIES && TableEntry(current, i) != TableEntry(clean, i))
    && (forall i, j :: 0 <= i < j < |diffs| ==> diffs[i] < diffs[j])
  }

  /** No entry differs if and only if no byte does. */
  lemma NoDiffsIff(clean: seq<byte>, current: seq<byte>, diffs: seq<nat>)
    requires |clean| == |current| == TABLE_SIZE && AreDiffs(clean, current, diffs)
    ensures diffs == [] <==> clean == current
  {
    hide TableEntry;
    if diffs == [] {
      forall i | 0 <= i < SYSCALL_ENTRIES ensures TableEntry(clean, i) == TableEntry(current, i) {
        assert i !in diffs;
      }
      SameEntriesSameBytes(clean, current);
    } else {
      assert diffs[0] in diffs;
    }
  }

  /** The comparison with the clean table, entry by entry. */
  method ReportSyscallTableDiffs(clean: seq<byte>, current: seq<byte>) returns (diffs: seq<nat>)
    requires |clean| == |current| == TABLE_SIZE
    ensures AreDiffs(clean, current, diffs)
    ensures diffs == [] <==> clean == current
  {
    diffs := [];
    for i := 0 to SYSCALL_ENTRIES
      invariant forall k: nat :: k in diffs <==> k < i && TableEntry(current, k) != TableEntry(clean, k)
      invariant forall k :: 0 <= k < |diffs| ==> diffs[k] < i
      invariant forall j, k :: 0 <= j < k < |diffs| ==> diffs[j] < diffs[k]
    {
      if TableEntry(current, i) != TableEntry(clean, i) {
        diffs := diffs + [i];
      }
    }
    NoDiffsIff(clean, current, diffs);
  }

  // ------------------------------------------------------------- arming and bounds

  /** The start of the page that holds an address. */
  function PageOf(x: u64): nat {
    And(x, 0xFFFF_FFFF_FFFF_F000)
  }

  lemma PageOfIs(x: u64)
    ensures PageOf(x) == x - x % PAGE_SIZE
  {
    Pow2Values();
    AndField(x, 12, 64);
  }

  /** The end of the region's last page is an address. */
  predicate Fits(r: Region) {
    r.size > 0 && r.gpa + r.size + PAGE_SIZE <= WORD64
  }

  predicate InBytes(r: Region, gpa: u64) {
    r.gpa <= gpa < r.gpa + r.size
  }

  /** The address lies in a page that arming the region protects. */
  predicate InPages(r: Region, gpa: u64) {
    r.gpa / PAGE_SIZE <= gpa / PAGE_SIZE && gpa / PAGE_SIZE * PAGE_SIZE < r.gpa + r.size
  }

  /** The address lies in a page that the arming loop reaches; the end of a
      region that passes the top of the address space wraps.
    */
  predicate Armed(r: Region, gpa: u64) {
    PageOf(r.gpa) <= PageOf(gpa) < Wrap64(r.gpa + r.size)
  }

  lemma ArmedIsInPages(r: Region, gpa: u64)
    requires Fits(r)
    ensures Armed(r, gpa) <==> InPages(r, gpa)
  {
    PageOfIs(r.gpa);
    PageOfIs(gpa);
  }

  /** Protects the pages of a region; returns the pages marked read-only. The
      loop ends only if the region's end leaves room for one more page.
    */
  method ArmRegion(r: Region) returns (pages: seq<u64>)
    requires Armable(r)
    ensures forall gpa: u64 :: Armed(r, gpa) <==> PageOf(gpa) in pages
    ensures Fits(r) ==> forall gpa: u64 :: InPages(r, gpa) <==> PageOf(gpa) in pages
    ensures forall i, j :: 0 <= i < j < |pages| ==> pages[i] < pages[j]
  {
    hide InPages, Fits, PageOf, Armed;
    var end := Wrap64(r.gpa + r.size);
    PageOfIs(r.gpa);
    var first := PageOf(r.gpa);
    var page := first;
    pages := [];
    while page < end
      invariant page % PAGE_SIZE == 0 && first <= page && (page == first || page < end + PAGE_SIZE)
      invariant IsPagesFrom(pages, first, page)
      invariant forall i, j :: 0 <= i < j < |pages| ==> pages[i] < pages[j]
    {
      NextPage(pages, first, page);
      pages := pages + [page];
      page := page + PAGE_SIZE;
    }
    forall gpa: u64
      ensures Armed(r, gpa) <==> PageOf(gpa) in pages
      ensures Fits(r) ==> (InPages(r, gpa) <==> PageOf(gpa) in pages)
    {
      ArmedPage(r, gpa, pages, page);
    }
  }

  /** The pages are the page starts of a range. */
  ghost predicate IsPagesFrom(pages: seq<u64>, first: nat, end: nat) {
    forall x: u64 :: x in pages <==> x % PAGE_SIZE == 0 && first <= x < end
  }

  lemma NextPage(pages: seq<u64>, first: nat, page: u64)
    requires IsPagesFrom(pages, first, page) && page % PAGE_SIZE == 0 && first <= page
    ensures IsPagesFrom(pages + [page], first, page + PAGE_SIZE)
    ensures forall i :: 0 <= i < |pages| ==> pages[i] < page
  {
    assert forall i :: 0 <= i < |pages| ==> pages[i] in pages;
  }

  lemma ArmedPage(r: Region, gpa: u64, pages: seq<u64>, page: nat)
    requires IsPagesFrom(pages, PageOf(r.gpa), page) && page % PAGE_SIZE == 0
    requires PageOf(r.gpa) <= page && Wrap64(r.gpa + r.size) <= page
    requires page == PageOf(r.gpa) || page < Wrap64(r.gpa + r.size) + PAGE_SIZE
    ensures Armed(r, gpa) <==> PageOf(gpa) in pages
    ensures Fits(r) ==> (InPages(r, gpa) <==> PageOf(gpa) in pages)
  {
    hide InPages, Fits, PageOf;
    PageOfIs(gpa);
    PageOfIs(r.gpa);
    if Fits(r) {
      ArmedIsInPages(r, gpa);
    }
  }

  datatype Hit = Miss | Direct(region: nat) | Collateral(region: nat)

  /** The bounds test as the fault path makes it: page start and end by masking. */
  predicate PageTest(r: Region, gpa: u64) {
    var end := Wrap64(r.gpa + r.size);
    PageOf(r.gpa) <= gpa < PageOf(Wrap64(end + PAGE_SIZE - 1))
  }

  predicate ByteTest(r: Region, gpa: u64) {
    r.gpa <= gpa < Wrap64(r.gpa + r.size)
  }

  /** For a region that fits, the tests mean what they say. */
  lemma TestsAre(r: Region, gpa: u64)
    requires Fits(r)
    ensures PageTest(r, gpa) <==> InPages(r, gpa)
    ensures ByteTest(r, gpa) <==> InBytes(r, gpa)
  {
    PageOfIs(r.gpa);
    PageOfIs(r.gpa + r.size + PAGE_SIZE - 1);
  }

  /** The bytes of a region are all found by the page test if and only if the
      region stays below the last page of the address space.
    */
  lemma AllBytesFoundIff(r: Region)
    requires r.size > 0
    ensures (forall gpa: u64 :: InBytes(r, gpa) ==> PageTest(r, gpa)) <==> Fits(r)
  {
    hide PageTest, InPages;
    if Fits(r) {
      forall gpa: u64 | InBytes(r, gpa) ensures PageTest(r, gpa) {
        TestsAre(r, gpa);
        BytesInPages(r, gpa);
      }
    } else {
      if r.gpa + r.size < WORD64 {
        TopPageMissed(r);
        assert InBytes(r, r.gpa);
      } else {
        LastByteMissed(r);
        assert InBytes(r, WORD64 - 1);
      }
    }
  }

  lemma TopPageMissed(r: Region)
    requires r.size > 0 && r.gpa + r.size < WORD64 && !Fits(r)
    ensures !PageTest(r, r.gpa)
  {
    hide PageOf;
    var over := Wrap64(r.gpa + r.size + PAGE_SIZE - 1);
    assert over < PAGE_SIZE - 1;
    PageOfIs(over);
  }

  lemma LastByteMissed(r: Region)
    ensures !PageTest(r, WORD64 - 1)
  {
    hide PageOf;
    PageOfIs(Wrap64(Wrap64(r.gpa + r.size) + PAGE_SIZE - 1));
  }

  /** The arming loop ends on a region. */
  predicate Armable(r: Region) {
    Wrap64(r.gpa + r.size) + PAGE_SIZE <= WORD64
  }

  /** The page variable comes to the region's end if and only if the end leaves
      room for one more page.
    */
  lemma ArmingEndsIff(r: Region)
    ensures (exists n: nat :: Stepped(PageOf(r.gpa), PAGE_SIZE, n) >= Wrap64(r.gpa + r.size)) <==> Armable(r)
  {
    hide PageOf, Stepped;
    PageOfIs(r.gpa);
    StepLoopEndsIff(PageOf(r.gpa), PAGE_SIZE, Wrap64(r.gpa + r.size));
  }

  /** Wherever arming ends, the pages it protects are the pages the fault path
      finds, for regions whose end wraps too.
    */
  lemma ArmedIffFound(r: Region, gpa: u64)
    requires Armable(r)
    ensures Armed(r, gpa) <==> PageTest(r, gpa)
  {
    hide PageOf;
    var end := Wrap64(r.gpa + r.size);
    PageOfIs(r.gpa);
    PageOfIs(gpa);
    PageOfIs(end + PAGE_SIZE - 1);
  }

  ghost predicate AllFit(regions: seq<Region>) {
    forall i :: 0 <= i < |regions| ==> Fits(regions[i])
  }

  /** `i` is the first region whose pages hold the address. */
  ghost predicate FirstMatch(regions: seq<Region>, gpa: u64, i: nat) {
    && i < |regions|
    && PageTest(regions[i], gpa)
    && forall j :: 0 <= j < i ==> !PageTest(regions[j], gpa)
  }

  /** The result of the search: the first region whose pages hold the address,
      hit directly or beside its bytes.
    */
  ghost predicate IsHit(regions: seq<Region>, gpa: u64, h: Hit) {
    match h
    case Miss => forall i :: 0 <= i < |regions| ==> !PageTest(regions[i], gpa)
    case Direct(i) => FirstMatch(regions, gpa, i) && ByteTest(regions[i], gpa)
    case Collateral(i) => FirstMatch(regions, gpa, i) && !ByteTest(regions[i], gpa)
  }

  /** Classifies a faulting address against the guarded regions. */
  method CheckBounds(regions: seq<Region>, gpa: u64) returns (h: Hit)
    ensures IsHit(regions, gpa, h)
  {
    hide PageTest;
    for i := 0 to |regions|
      invariant forall j :: 0 <= j < i ==> !PageTest(regions[j], gpa)
    {
      if PageTest(regions[i], gpa) {
        return if regions[i].gpa <= gpa < Wrap64(regions[i].gpa + regions[i].size) then Direct(i) else Collateral(i);
      }
    }
    h := Miss;
  }

  /** An address is unknown exactly when no armed page holds it, and a direct
      hit is on a guarded byte.
    */
  lemma HitIffArmed(regions: seq<Region>, gpa: u64, h: Hit)
    requires (forall i :: 0 <= i < |regions| ==> Armable(regions[i])) && IsHit(regions, gpa, h)
    ensures h.Miss? <==> forall i :: 0 <= i < |regions| ==> !Armed(regions[i], gpa)
    ensures h.Direct? ==> Guarded(regions, gpa)
  {
    hide PageTest, Armed;
    forall i | 0 <= i < |regions| ensures Armed(regions[i], gpa) <==> PageTest(regions[i], gpa) {
      ArmedIffFound(regions[i], gpa);
    }
    if h.Direct? {
      assert InBytes(regions[h.region], gpa);
    }
  }

  lemma BytesInPages(r: Region, gpa: u64)
    requires InBytes(r, gpa)
    ensures InPages(r, gpa)
  {
  }

  /** The fault path can tell that the byte belongs to the region. */
  predicate Sees(r: Region, gpa: u64) {
    PageTest(r, gpa) && ByteTest(r, gpa)
  }

  /** Exactly the regions that fit have all their bytes seen. */
  lemma SeesIsInBytes(r: Region, gpa: u64)
    requires Fits(r)
    ensures Sees(r, gpa) <==> InBytes(r, gpa)
  {
    hide PageTest, ByteTest, InPages;
    TestsAre(r, gpa);
    if InBytes(r, gpa) {
      BytesInPages(r, gpa);
    }
  }

  /** The address is on the pages of some region, and neither that region nor
      one before it is seen to own the byte.
    */
  ghost predicate Shadowed(regions: seq<Region>, gpa: u64) {
    exists i :: 0 <= i < |regions| && PageTest(regions[i], gpa) && BytesFree(regions, i, gpa)
  }

  predicate BytesFree(regions: seq<Region>, i: nat, gpa: u64)
    requires i < |regions|
  {
    forall k :: 0 <= k <= i ==> !Sees(regions[k], gpa)
  }

  ghost predicate Guarded(regions: seq<Region>, gpa: u64) {
    exists i :: 0 <= i < |regions| && InBytes(regions[i], gpa)
  }

  ghost predicate Seen(regions: seq<Region>, gpa: u64) {
    exists i :: 0 <= i < |regions| && Sees(regions[i], gpa)
  }

  /** For every table of regions and every address: a collateral hit means the
      address is shadowed, and a direct hit that its byte is seen and not
      shadowed.
    */
  lemma DirectIffNotShadowed(regions: seq<Region>, gpa: u64, h: Hit)
    requires IsHit(regions, gpa, h)
    ensures h.Collateral? <==> Shadowed(regions, gpa)
    ensures h.Direct? <==> Seen(regions, gpa) && !Shadowed(regions, gpa)
  {
    hide PageTest, ByteTest;
    if h.Collateral? {
      assert BytesFree(regions, h.region, gpa);
    }
    if Shadowed(regions, gpa) {
      var i :| 0 <= i < |regions| && PageTest(regions[i], gpa) && BytesFree(regions, i, gpa);
      assert !h.Miss? && h.region <= i;
      assert !Sees(regions[h.region], gpa);
    }
    if j :| 0 <= j < |regions| && Sees(regions[j], gpa) {
      assert !h.Miss?;
    }
  }

  /** With regions that all fit, the seen bytes are the guarded ones. */
  lemma SeenIsGuarded(regions: seq<Region>, gpa: u64)
    requires AllFit(regions)
    ensures Seen(regions, gpa) <==> Guarded(regions, gpa)
  {
    hide Sees, InBytes;
    forall i | 0 <= i < |regions| ensures Sees(regions[i], gpa) <==> InBytes(regions[i], gpa) {
      SeesIsInBytes(regions[i], gpa);
    }
  }

  predicate SharePage(r: Region, q: Region) {
    r.gpa / PAGE_SIZE <= (q.gpa + q.size - 1) / PAGE_SIZE && q.gpa / PAGE_SIZE <= (r.gpa + r.size - 1) / PAGE_SIZE
  }

  /** Regions that share no page shadow no guarded byte. */
  lemma DisjointPagesNotShadowed(regions: seq<Region>, gpa: u64)
    requires AllFit(regions) && Guarded(regions, gpa)
    requires forall i, j :: 0 <= i < j < |regions| ==> !SharePage(regions[i], regions[j])
    ensures !Shadowed(regions, gpa)
  {
    hide PageTest, ByteTest, Sees, InPages, InBytes, SharePage;
    var j :| 0 <= j < |regions| && InBytes(regions[j], gpa);
    SeesIsInBytes(regions[j], gpa);
    forall i | 0 <= i < j ensures !PageTest(regions[i], gpa) {
      OtherPages(regions[i], regions[j], gpa);
      TestsAre(regions[i], gpa);
    }
  }

  lemma OtherPages(r: Region, q: Region, gpa: u64)
    requires Fits(r) && Fits(q) && !SharePage(r, q) && InBytes(q, gpa)
    ensures !InPages(r, gpa)
  {
  }

  /** Two regions on one page: a write to the second one's bytes counts as
      collateral damage of the first.
    */
  lemma ShadowingHappens()
    ensures
      var a := Region("a", 0x1000, 0x100, true, 0, true, 0);
      var b := Region("b", 0x1800, 0x100, true, 0, true, 0);
      && AllFit([a, b]) && Guarded([a, b], 0x1800)
      && Shadowed([a, b], 0x1800) && IsHit([a, b], 0x1800, Collateral(0))
  {
    hide PageTest, ByteTest;
    var a := Region("a", 0x1000, 0x100, true, 0, true, 0);
    var b := Region("b", 0x1800, 0x100, true, 0, true, 0);
    assert [a, b][1] == b && InBytes([a, b][1], 0x1800);
    TestsAre(a, 0x1800);
    assert [a, b][0] == a && InPages(a, 0x1800) && !InBytes(a, 0x1800);
    assert BytesFree([a, b], 0, 0x1800);
  }

  // -------------------------------------------------------------------------- the guard

  class Guard {
    var regions: seq<Region>
    var lastCheck: u64
    /** The guest address of the system call table, 0 if unknown. */
    const tableGpa: u64
    /** The clean copy of the system call table, once it is taken. */
    var clean: Option<seq<byte>>
    /** The copies there have been. */
    ghost var copies: seq<Copy>

    /** The clean copy is the last one, and a region named as the table has its
        baseline from the last copy taken for it.
      */
    ghost predicate Valid()
      reads this
    {
      && WholeCopies(copies) && clean == LastCopy(copies)
      && forall i :: 0 <= i < |regions| ==> BaselineIsCopy(copies, i, regions[i])
    }

    constructor (table: u64)
      ensures Valid() && regions == [] && lastCheck == 0 && tableGpa == table && clean == None && copies == []
    {
      regions, lastCheck, tableGpa, clean, copies := [], 0, table, None, [];
    }

    /** Registers a region without a baseline; the table holds sixteen. */
    method AddRegion(name: string, gpa: u64, size: u64, critical: bool) returns (ok: bool)
      requires Valid()
      modifies this`regions
      ensures Valid()
      ensures ok <==> size > 0 && |old(regions)| < 16
      ensures regions == if ok then old(regions) + [Region(name[..NameLength(name)], gpa, size, critical, 0, false, 0)]
                         else old(regions)
    {
      ok := size > 0 && |regions| < MAX_GUARD_REGIONS;
      if ok {
        regions := regions + [Region(name[..NameLength(name)], gpa, size, critical, 0, false, 0)];
      }
    }

    /** Takes the baseline of a region: the hash of the bytes it watches as they
        are now. The system call table is copied as well; `torn` is what a failed
        read leaves in the place of the copy.
      */
    method Snapshot(s: Session, i: nat, torn: seq<byte>) returns (ok: bool)
      requires Valid() && s.Valid() && i < |regions| && |torn| == TABLE_SIZE
      modifies this`regions, this`clean, this`copies, s`calls
      ensures Valid()
      ensures
        var r, watched := old(regions[i]), Watched(s.PhysicalMemory(), tableGpa, old(regions[i]));
        && (ok ==> watched.Some?)
        && (!ok ==> watched.None? || r.size == 0 || Trouble(s, old(s.calls), s.calls))
        && regions == (if ok then old(regions)[i := BaselinedOn(r, watched.value)] else old(regions))
        && clean == CleanAfter(old(clean), r, if ok then watched else None, torn)
      ensures copies == old(copies) +
        if old(regions[i].name) == TABLE_NAME && clean.Some? then [Copy(i, ok, clean.value)] else []
    {
      hide HashOf, Watched, BaseCopy;
      var h: Option<u64> := None;
      ghost var was := copies;
      if regions[i].name == TABLE_NAME {
        var read, table := s.ReadPhysical(tableGpa, TABLE_SIZE);
        WatchedIs(s.PhysicalMemory(), tableGpa, regions[i]);
        if read {
          var hash := HashUpdate(HASH_INIT, table);
          HashOfIs(table);
          clean, h := Some(table), Some(hash);
        } else if clean.Some? {
          clean := Some(torn);
        }
        copies := copies + if clean.Some? then [Copy(i, read, clean.value)] else [];
      } else {
        h := HashGuestRegion(s, regions[i].gpa, regions[i].size);
        WatchedIs(s.PhysicalMemory(), tableGpa, regions[i]);
      }
      ok := h.Some?;
      if ok {
        regions := regions[i := regions[i].(baseline := h.value, baselineValid := true, lastAlert := 0)];
      }
      forall j | 0 <= j < |regions| ensures BaselineIsCopy(copies, j, regions[j]) {
        assert BaselineIsCopy(was, j, old(regions)[j]);
        if |copies| > |was| {
          BaseCopyNext(was, copies[|was|], j);
        }
      }
    }

    /** Guards one more region from now on. A region whose baseline could not be
        taken stays in the table, unwatched.
      */
    method ProtectDynamic(s: Session, gpa: u64, size: u64, critical: bool, name: string, torn: seq<byte>)
      returns (ok: bool)
      requires Valid() && s.Valid() && |torn| == TABLE_SIZE
      modifies this`regions, this`clean, this`copies, s`calls
      ensures Valid() && old(regions) <= regions
      ensures |regions| == |old(regions)| + if size > 0 && |old(regions)| < MAX_GUARD_REGIONS then 1 else 0
      ensures |regions| == |old(regions)| ==> !ok && clean == old(clean)
      ensures |regions| > |old(regions)| ==>
        var r := Region(name[..NameLength(name)], gpa, size, critical, 0, false, 0);
        var watched := Watched(s.PhysicalMemory(), tableGpa, r);
        && (ok ==> watched.Some?)
        && regions[|regions| - 1] == (if ok then BaselinedOn(r, watched.value) else r)
        && clean == CleanAfter(old(clean), r, if ok then watched else None, torn)
    {
      hide HashOf, Watched, BaselineIsCopy;
      ok := AddRegion(name, gpa, size, critical);
      if ok {
        ok := Snapshot(s, |regions| - 1, torn);
      }
    }

    /** The entries of the table that differ from the clean copy, if there is one
        and the table can be read.
      */
    method ReportTableDiffs(s: Session) returns (diffs: Option<seq<nat>>)
      requires Valid() && s.Valid()
      modifies s`calls
      ensures diffs.Some? ==>
        && clean.Some? && tableGpa != 0 && tableGpa + TABLE_SIZE <= |s.PhysicalMemory()|
        && AreDiffs(clean.value, s.PhysicalMemory()[tableGpa..tableGpa + TABLE_SIZE], diffs.value)
      ensures diffs.None? ==>
        || clean.None? || tableGpa == 0 || tableGpa + TABLE_SIZE > |s.PhysicalMemory()|
        || Trouble(s, old(s.calls), s.calls)
    {
      diffs := None;
      if clean.Some? && tableGpa != 0 {
        var read, current := s.ReadPhysical(tableGpa, TABLE_SIZE);
        if read {
          var d := ReportSyscallTableDiffs(clean.value, current);
          diffs := Some(d);
        }
      }
    }

    /** One integrity check over all regions, at most every half second. Each
        region is read, compared and its report state updated. A report on the
        system call table lists the entries that differ, and there is one if the
        region's baseline is the clean copy's.
      */
    method HandleEvents(s: Session, now: u64)
      returns (checked: bool, readings: seq<Option<u64>>, reported: seq<Report>)
      requires Valid() && s.Valid()
      modifies this`regions, this`lastCheck, s`calls
      ensures Valid()
      ensures checked <==>
        old(lastCheck) == 0 || now == 0 || Sub64(now, old(lastCheck)) >= 500_000
      ensures |regions| == |old(regions)|
      ensures !checked ==> regions == old(regions) && lastCheck == old(lastCheck) && reported == []
      ensures checked ==> lastCheck == if now != 0 then now else old(lastCheck)
      ensures checked ==> |readings| == |regions| && forall i :: 0 <= i < |regions| ==>
        && PollDone(s.PhysicalMemory(), old(regions[i]), regions[i], readings[i])
        && (Reported(reported, i) <==> Reports(old(regions[i]), readings[i]))
      ensures forall k :: 0 <= k < |reported| ==>
        && reported[k].region < |regions|
        && ReportOk(s.PhysicalMemory(), tableGpa, clean, regions[reported[k].region].name, reported[k])
        && (CopyStands(tableGpa, clean, old(regions)[reported[k].region]) ==> !EmptyTableReport(reported[k]))
    {
      hide PollDone, Reports, ReportOk, CopyStands, EmptyTableReport;
      ghost var was := regions;
      checked, readings, reported := false, [], [];
      if !(lastCheck != 0 && now != 0 && Sub64(now, lastCheck) < CHECK_INTERVAL_US) {
        if now != 0 {
          lastCheck := now;
        }
        readings, reported := CheckRegions(s);
        checked := true;
        forall k | 0 <= k < |reported| && CopyStands(tableGpa, clean, was[reported[k].region])
          ensures !EmptyTableReport(reported[k])
        {
          var i := reported[k].region;
          assert Reported(reported, i);
          TableReportShowsEntry(s.PhysicalMemory(), tableGpa, clean, was[i], regions[i], readings[i], reported[k]);
        }
      }
    }

    /** The loop over the regions. */
    method CheckRegions(s: Session) returns (readings: seq<Option<u64>>, reported: seq<Report>)
      requires Valid() && s.Valid()
      modifies this`regions, s`calls
      ensures Valid() && |readings| == |regions| == |old(regions)|
      ensures forall i :: 0 <= i < |regions| ==>
        && PollDone(s.PhysicalMemory(), old(regions[i]), regions[i], readings[i])
        && (Reported(reported, i) <==> Reports(old(regions[i]), readings[i]))
      ensures forall k :: 0 <= k < |reported| ==>
        && reported[k].region < |regions|
        && ReportOk(s.PhysicalMemory(), tableGpa, clean, regions[reported[k].region].name, reported[k])
    {
      hide PollDone, Reports, ReportOk, Reported, Ram, Backed, Layout, BaselineIsCopy;
      readings, reported := [], [];
      ghost var ram, was := s.PhysicalMemory(), regions;
      for i := 0 to |regions|
        invariant |regions| == |was| && |readings| == i
        invariant Valid() && s.Valid() && s.PhysicalMemory() == ram
        invariant forall j :: i <= j < |was| ==> regions[j] == was[j]
        invariant forall j :: 0 <= j < |was| ==> regions[j].name == was[j].name
        invariant forall j :: 0 <= j < i ==> PollDone(ram, was[j], regions[j], readings[j])
        invariant forall j :: 0 <= j < i ==> (Reported(reported, j) <==> Reports(was[j], readings[j]))
        invariant AllReportsOk(ram, tableGpa, clean, was, reported, i)
      {
        var r, reading, report := PollRegion(s, regions[i]);
        PollKeeps(ram, copies, i, regions[i], r, reading);
        regions := regions[i := r];
        ghost var before := reported;
        if report {
          var found := MakeReport(s, i);
          reported := reported + [found];
        }
        ReportedNext(before, reported, i, report);
        readings := readings + [reading];
      }
    }

    /** What is reported about a region. */
    method MakeReport(s: Session, i: nat) returns (r: Report)
      requires Valid() && s.Valid() && i < |regions|
      modifies s`calls
      ensures r.region == i && ReportOk(s.PhysicalMemory(), tableGpa, clean, regions[i].name, r)
    {
      if regions[i].name == TABLE_NAME {
        var diffs := ReportTableDiffs(s);
        r := TableEdited(i, diffs);
      } else {
        r := Violation(i);
      }
    }
  }

  /** A copy of the system call table, made for the snapshot of a region; one not
      taken is what a failed read left behind.
    */
  datatype Copy = Copy(region: nat, taken: bool, table: seq<byte>)

  predicate WholeCopies(copies: seq<Copy>) {
    forall k :: 0 <= k < |copies| ==> |copies[k].table| == TABLE_SIZE
  }

  function LastCopy(copies: seq<Copy>): Option<seq<byte>> {
    if copies == [] then None else Some(copies[|copies| - 1].table)
  }

  /** The last copy taken for a region. */
  function BaseCopy(copies: seq<Copy>, i: nat): Option<seq<byte>> {
    if copies == [] then None
    else
      var last := copies[|copies| - 1];
      if last.region == i && last.taken then Some(last.table) else BaseCopy(copies[..|copies| - 1], i)
  }

  predicate BaselineIsCopy(copies: seq<Copy>, i: nat, r: Region) {
    r.name == TABLE_NAME && r.baselineValid ==>
      BaseCopy(copies, i).Some? && r.baseline == HashOf(BaseCopy(copies, i).value)
  }

  /** A region with a fresh baseline on some bytes. */
  function BaselinedOn(r: Region, data: seq<byte>): (r': Region)
    ensures Baselined(r')
  {
    r.(baseline := HashOf(data), baselineValid := true, lastAlert := 0)
  }

  /** The clean copy after a snapshot that read `table`, or failed. */
  function CleanAfter(clean: Option<seq<byte>>, r: Region, table: Option<seq<byte>>, torn: seq<byte>):
    Option<seq<byte>>
  {
    if r.name != TABLE_NAME then clean
    else if table.Some? then table
    else if clean.Some? then Some(torn) else None
  }

  lemma BaseCopyNext(copies: seq<Copy>, c: Copy, i: nat)
    ensures BaseCopy(copies + [c], i) == if c.region == i && c.taken then Some(c.table) else BaseCopy(copies, i)
  {
    assert (copies + [c])[..|copies|] == copies;
  }

  /** The region is the system call table, and its baseline the clean copy's. */
  predicate CopyStands(table: u64, clean: Option<seq<byte>>, r: Region) {
    r.gpa == table && r.size == TABLE_SIZE && clean.Some? && r.baseline == HashOf(clean.value)
  }

  predicate EmptyTableReport(r: Report) {
    r.TableEdited? && r.entries == Some([])
  }

  /** While the clean copy is what a region's baseline was taken on, a report of
      that region lists an entry.
    */
  lemma TableReportShowsEntry(ram: seq<byte>, table: u64, clean: Option<seq<byte>>, r: Region, r': Region,
                              reading: Option<u64>, report: Report)
    requires PollDone(ram, r, r', reading) && Reports(r, reading) && CopyStands(table, clean, r)
    requires ReportOk(ram, table, clean, r'.name, report)
    ensures !EmptyTableReport(report)
  {
    hide HashOf, TableEntry;
    if report.TableEdited? && report.entries.Some? {
      var current := ram[table..table + TABLE_SIZE];
      MismatchHasEntry(clean.value, current);
      var i :| 0 <= i < SYSCALL_ENTRIES && TableEntry(clean.value, i) != TableEntry(current, i);
      assert i in report.entries.value;
    }
  }

  /** Over every run: a region named as the system call table and watched has
      the clean copy's hash for its baseline if and only if the last copy hashes
      like the last one taken for that region, as it does while that is the last.
    */
  lemma BaselineIsCleanIff(g: Guard, i: nat)
    requires g.Valid() && i < |g.regions| && g.regions[i].name == TABLE_NAME && g.regions[i].baselineValid
    ensures
      var own, last := BaseCopy(g.copies, i), g.clean;
      && own.Some? && last.Some?
      && (g.regions[i].baseline == HashOf(last.value) <==> HashOf(own.value) == HashOf(last.value))
      && (g.copies[|g.copies| - 1].region == i && g.copies[|g.copies| - 1].taken ==> own == last)
  {
    hide HashOf;
    assert BaselineIsCopy(g.copies, i, g.regions[i]);
  }

  /** A region freshly baselined and not touched since is reported if and only
      if it carries the system call table's name over other bytes, whose hash
      is neither the table's nor zero.
    */
  lemma UntouchedReportedIff(ram: seq<byte>, table: u64, r: Region, r': Region)
    requires r.gpa + r.size <= |ram| && Watched(ram, table, r).Some?
    requires r' == BaselinedOn(r, Watched(ram, table, r).value)
    ensures
      var own := HashOf(ram[r.gpa..r.gpa + r.size]);
      Reports(r', Some(own)) <==>
      r.name == TABLE_NAME && own != HashOf(ram[table..table + TABLE_SIZE]) && own != 0
  {
    hide HashOf;
  }

  function BlankTable(): (table: seq<byte>)
    ensures |table| == TABLE_SIZE
  {
    seq(TABLE_SIZE, _ => 0)
  }

  lemma BlankedTable(ram: seq<byte>, table: nat)
    requires table + TABLE_SIZE <= |ram| && ram[table..table + TABLE_SIZE] == BlankTable()[0 := 1]
    ensures Spliced(ram, table, [0])[table..table + TABLE_SIZE] == BlankTable()
  {
    var t := ram[table..table + TABLE_SIZE];
    forall k | 0 < k < TABLE_SIZE ensures ram[table + k] == BlankTable()[k] {
      assert ram[table + k] == t[k];
    }
  }

  /** A table that is blank but for its first byte does not hash like a blank
      one, nor does the blank one hash to zero.
    */
  lemma BlankTableHash()
    ensures HashOf(BlankTable()[0 := 1]) != HashOf(BlankTable()) && HashOf(BlankTable()) != 0
  {
    hide HashOf;
    BlankHashOdd(TABLE_SIZE);
    OneByteChangesHash(BlankTable(), 0, 1);
  }

  /** A blank region named as the system call table, which is not blank, is
      reported though nothing was touched.
    */
  lemma UntouchedReported(critical: bool)
    ensures
      var ram := BlankTable() + BlankTable()[0 := 1];
      var r := Region(TABLE_NAME, 0, TABLE_SIZE, critical, 0, false, 0);
      && Watched(ram, TABLE_SIZE, r).Some?
      && Reports(BaselinedOn(r, Watched(ram, TABLE_SIZE, r).value), Some(HashOf(ram[..TABLE_SIZE])))
  {
    hide HashOf, BlankTable;
    var ram := BlankTable() + BlankTable()[0 := 1];
    var r := Region(TABLE_NAME, 0, TABLE_SIZE, critical, 0, false, 0);
    BlankTableHash();
    assert ram[0..TABLE_SIZE] == ram[..TABLE_SIZE] == BlankTable();
    assert ram[TABLE_SIZE..TABLE_SIZE + TABLE_SIZE] == BlankTable()[0 := 1];
    UntouchedReportedIff(ram, TABLE_SIZE, r, BaselinedOn(r, Watched(ram, TABLE_SIZE, r).value));
  }

  /** The table is guarded and then edited, and a second region of that name is
      guarded: the edit is reported without a single entry.
    */
  method RetakenCopyHidesEdit(s: Session, g: Guard, gpa: u64, size: u64, torn: seq<byte>, now: u64)
    returns (done: bool, readings: seq<Option<u64>>, reported: seq<Report>)
    requires s.Valid() && Separate(s.slots) && g.Valid() && g.regions == [] && |torn| == TABLE_SIZE
    requires g.tableGpa + TABLE_SIZE <= |s.PhysicalMemory()|
    requires s.PhysicalMemory()[g.tableGpa..g.tableGpa + TABLE_SIZE] == BlankTable()[0 := 1]
    modifies g, s
    ensures done ==> |readings| == 2
    ensures done && readings[0].Some? ==> Reported(reported, 0)
    ensures forall k :: done && 0 <= k < |reported| && reported[k].region == 0 ==>
      reported[k].TableEdited? && (reported[k].entries.Some? ==> EmptyTableReport(reported[k]))
  {
    hide HashOf, BlankTable, BaselineIsCopy, BaseCopy, AreDiffs, CopyStands, HostFrame, Ram, Layout, Backed, Spliced;
    done, readings, reported := false, [], [];
    BlankTableHash();
    BlankedTable(s.PhysicalMemory(), g.tableGpa);
    var added := g.AddRegion(TABLE_NAME, g.tableGpa, TABLE_SIZE, true);
    var taken := g.Snapshot(s, 0, torn);
    var wrote, n := s.WritePhysical(g.tableGpa, [0]);
    assert wrote ==> [0][..n] == [0];
    var again := g.ProtectDynamic(s, gpa, size, true, TABLE_NAME, torn);
    if added && taken && wrote && again {
      ghost var r := g.regions[0];
      assert r.baseline == HashOf(BlankTable()[0 := 1]) && r.lastAlert == 0 && r.name == TABLE_NAME;
      assert TABLE_NAME[..NameLength(TABLE_NAME)] == TABLE_NAME && |g.regions| == 2;
      assert g.clean == Some(s.PhysicalMemory()[g.tableGpa..g.tableGpa + TABLE_SIZE]);
      assert g.clean == Some(BlankTable());
      done, readings, reported := g.HandleEvents(s, now);
      if done {
        forall k | 0 <= k < |reported| && reported[k].region == 0
          ensures reported[k].TableEdited? && (reported[k].entries.Some? ==> EmptyTableReport(reported[k]))
        {
          PollKeeps(s.PhysicalMemory(), [], 0, r, g.regions[0], readings[0]);
          if reported[k].entries.Some? {
            NoDiffsIff(BlankTable(), BlankTable(), reported[k].entries.value);
          }
        }
      }
    }
  }

  /** A report: of a table with its differing entries, or of any other region. */
  datatype Report = Violation(region: nat) | TableEdited(region: nat, entries: Option<seq<nat>>)

  predicate Reported(reports: seq<Report>, i: nat) {
    exists k :: 0 <= k < |reports| && reports[k].region == i
  }

  /** A table's report shows exactly the entries that differ in memory. */
  ghost predicate ReportOk(ram: seq<byte>, table: u64, clean: Option<seq<byte>>, name: string, r: Report) {
    && (r.TableEdited? <==> name == TABLE_NAME)
    && (r.TableEdited? && r.entries.Some? ==>
          && clean.Some? && |clean.value| == TABLE_SIZE && table + TABLE_SIZE <= |ram|
          && AreDiffs(clean.value, ram[table..table + TABLE_SIZE], r.entries.value))
  }

  /** Every report is about one of the first `n` regions, and right. */
  ghost predicate AllReportsOk(ram: seq<byte>, table: u64, clean: Option<seq<byte>>, regions: seq<Region>,
                               reported: seq<Report>, n: nat) {
    forall k :: 0 <= k < |reported| ==>
      && reported[k].region < n && reported[k].region < |regions|
      && ReportOk(ram, table, clean, regions[reported[k].region].name, reported[k])
  }

  lemma PollKeeps(ram: seq<byte>, copies: seq<Copy>, i: nat, r: Region, r': Region, reading: Option<u64>)
    requires PollDone(ram, r, r', reading)
    ensures r'.name == r.name && r'.gpa == r.gpa && (BaselineIsCopy(copies, i, r) ==> BaselineIsCopy(copies, i, r'))
  {
    hide HashOf;
  }

  lemma ReportedNext(before: seq<Report>, after: seq<Report>, i: nat, report: bool)
    requires forall k :: 0 <= k < |before| ==> before[k].region < i
    requires if report then |after| == |before| + 1 && before <= after && after[|before|].region == i
             else after == before
    ensures Reported(after, i) <==> report
    ensures forall j :: 0 <= j < i ==> (Reported(after, j) <==> Reported(before, j))
  {
    forall j | 0 <= j < i ensures Reported(after, j) <==> Reported(before, j) {
      if k :| 0 <= k < |before| && before[k].region == j {
        assert after[k].region == j;
      }
    }
  }

  /** The bytes whose hash is a region's baseline: the region's own, or the
      system call table wherever the session found it.
    */
  function Watched(ram: seq<byte>, table: u64, r: Region): Option<seq<byte>> {
    var at, n := if r.name == TABLE_NAME then table else r.gpa, if r.name == TABLE_NAME then TABLE_SIZE else r.size;
    if at + n <= |ram| then Some(ram[at..at + n]) else None
  }

  lemma WatchedIs(ram: seq<byte>, table: u64, r: Region)
    ensures
      var at, n := if r.name == TABLE_NAME then table else r.gpa, if r.name == TABLE_NAME then TABLE_SIZE else r.size;
      Watched(ram, table, r) == if at + n <= |ram| then Some(ram[at..at + n]) else None
  {
  }

  /** One region's poll. */
  method PollRegion(s: Session, r: Region) returns (r': Region, reading: Option<u64>, report: bool)
    requires s.Valid()
    modifies s`calls
    ensures PollDone(s.PhysicalMemory(), r, r', reading)
    ensures report <==> Reports(r, reading)
  {
    hide HashOf;
    r', reading, report := r, None, false;
    if r.baselineValid {
      reading := HashGuestRegion(s, r.gpa, r.size);
      if reading.Some? {
        if reading.value == r.baseline {
          r' := r.(lastAlert := 0);
        } else if r.lastAlert != reading.value {
          r' := r.(lastAlert := reading.value);
          report := true;
        }
      }
    }
  }

  /** A region's poll: its new state follows from a true reading of memory. */
  ghost predicate PollDone(ram: seq<byte>, r: Region, r': Region, reading: Option<u64>) {
    && r' == Polled(r, reading)
    && (reading.Some? ==> r.gpa + r.size <= |ram| && reading.value == HashOf(ram[r.gpa..r.gpa + r.size]))
  }

  function NameLength(name: string): (n: nat)
    ensures n <= |name| && n <= 31 && (n == |name| || n == 31)
  {
    if |name| < REGION_NAME_MAX then |name| else REGION_NAME_MAX - 1
  }
}

/** The drawbridge for authorised writes: registration hands out a nonce, a
    CPUID intent that quotes it opens the bridge once, and the next hostile
    write fault uses the opening up, if the intent came from the kernel's tables.
  */
module Drawbridge {
  import opened Bits
  import opened Common
  import opened GuestMemory
  import opened NptGuard
  import opened PageWalk
  import opened RegionHash

  const HEKI_MAGIC: nat := 0x48454B49
  const MOCK_NONCE: nat := 3039
  const MOCK_CR3: nat := 0x12345678

  // ------------------------------------------------------------------ fault classes

  datatype Class = Ignored | Collateral | Legitimate | Suspicious | Malicious

  /** A fault, with the address space that wrote, at which the handler does not
      look. `allowPatch` is the staging override.
    */
  datatype Fault = Fault(gpa: u64, write: bool, writer: u64, allowPatch: bool)

  const SYSCALL_TABLE_SIZE: nat := 4096

  predicate InSyscallTable(table: u64, gpa: u64) {
    table != 0 && table <= gpa < Wrap64(table + SYSCALL_TABLE_SIZE)
  }

  predicate Patchable(name: string) {
    name == "sys_call_table" || name == "kernel_text"
  }

  /** The class of a fault, given what the bounds search found. */
  function Classify(regions: seq<Region>, table: u64, h: Hit, f: Fault): Class
    requires h.Miss? || h.region < |regions|
  {
    if !f.write then Ignored
    else match h
      case Collateral(_) => Class.Collateral
      case Direct(i) =>
        if f.allowPatch && Patchable(regions[i].name) then Legitimate
        else if regions[i].critical then Malicious else Suspicious
      case Miss =>
        if InSyscallTable(table, f.gpa) then (if f.allowPatch then Legitimate else Malicious) else Suspicious
  }

  /** What the handler does about a fault. */
  datatype Response = NoAction | SingleStep | Tolerate | Admit | Signal(malicious: bool)

  // ---------------------------------------------------------------- the state machine

  datatype State = State(nonce: u32, authCr3: u64, authPid: u32)

  const INITIAL := State(0, 0, 0)

  datatype Event =
    | Register(pgdSet: bool, translated: bool, protected: bool, random: u32)
    | Mock(gva: u64, who: u32)
    | Garbage
    | Cpuid(eax: u32, ecx: u32, cr3: u64, who: u32)
    | WriteFault(kind: Class, kernelPgd: u64, writer: u64, syscallTarget: bool)

  /** A client's message, by its magic. */
  datatype Message =
    | Registration(gva: u64, size: u32, critical: bool, name: string)
    | MockIntent(gva: u64)
    | Unknown

  /** The nonce drawn for a first registration. */
  function DrawNonce(random: u32): (r: nat)
    ensures r != 0
  {
    var x := Xor(random, HEKI_MAGIC);
    if x == 0 then 1 else x
  }

  /** A registration that ends in success. */
  predicate Registers(e: Event) {
    e.Register? && (!e.pgdSet || (e.translated && e.protected))
  }

  /** The intent carried by an event, if its magic is right. */
  datatype Intent = NoIntent | Intent(nonce: u32, cr3: u64, who: u32)

  function IntentOf(e: Event): Intent {
    match e
    case Cpuid(eax, ecx, cr3, who) => if eax == HEKI_MAGIC then Intent(ecx, cr3, who) else NoIntent
    case Mock(gva, who) => Intent(gva % WORD32, MOCK_CR3, who)
    case _ => NoIntent
  }

  /** The event is an intent that quotes the active nonce. */
  predicate Accepts(st: State, e: Event) {
    IntentOf(e).Intent? && IntentOf(e).nonce == st.nonce && st.nonce != 0
  }

  predicate IsAuthorized(st: State, cr3: u64, pid: u32) {
    (cr3 != 0 && st.authCr3 == cr3) || (pid != 0 && st.authPid == pid)
  }

  /** The handler cannot tell which process writes. */
  const UNIDENTIFIED: u32 := 0

  predicate Hostile(c: Class) {
    c.Suspicious? || c.Malicious?
  }

  /** The event is a hostile write that the bridge lets through. */
  predicate Admits(st: State, e: Event) {
    e.WriteFault? && Hostile(e.kind) && IsAuthorized(st, e.kernelPgd, UNIDENTIFIED)
  }

  function Respond(st: State, e: Event): Response
    requires e.WriteFault?
  {
    match e.kind
    case Ignored => NoAction
    case Collateral => SingleStep
    case Legitimate => Tolerate
    case _ =>
      if IsAuthorized(st, e.kernelPgd, UNIDENTIFIED) then Admit else Signal(e.syscallTarget || e.kind.Malicious?)
  }

  function Next(st: State, e: Event): State {
    if Registers(e) && st.nonce == 0 then
      st.(nonce := if e.pgdSet then DrawNonce32(e.random) else MOCK_NONCE)
    else if Accepts(st, e) then st.(authCr3 := IntentOf(e).cr3, authPid := IntentOf(e).who)
    else if Admits(st, e) then st.(authCr3 := 0, authPid := 0)
    else st
  }

  /** The nonce gives the random number away: it is that number mixed with the
      magic, except where that would be none.
    */
  lemma NonceRecovers(random: u32)
    ensures if random == 0x48454B49 then DrawNonce(random) == 1 else Xor(DrawNonce(random), 0x48454B49) == random
  {
    hide Xor;
    XorCancel(random, HEKI_MAGIC);
    XorSelf(HEKI_MAGIC);
    ZeroXor(HEKI_MAGIC);
  }

  lemma ZeroXor(x: nat)
    ensures Xor(0, x) == x
  {
  }

  function DrawNonce32(random: u32): (r: u32)
    ensures r == DrawNonce(random) && r != 0
  {
    Xor32(random);
    DrawNonce(random)
  }

  lemma Xor32(random: u32)
    ensures DrawNonce(random) < WORD32
  {
    Pow2Values();
    XorBound(random, HEKI_MAGIC, 32);
  }

  // --------------------------------------------------------------------------- runs

  function After(run: seq<Event>): State {
    if run == [] then INITIAL else Next(After(run[..|run| - 1]), run[|run| - 1])
  }

  lemma AfterNext(run: seq<Event>, k: nat)
    requires k < |run|
    ensures After(run[..k + 1]) == Next(After(run[..k]), run[k])
  {
    assert run[..k + 1][..k] == run[..k];
  }

  predicate AcceptedAt(run: seq<Event>, k: nat)
    requires k < |run|
  {
    Accepts(After(run[..k]), run[k])
  }

  predicate AdmittedAt(run: seq<Event>, k: nat)
    requires k < |run|
  {
    Admits(After(run[..k]), run[k])
  }

  /** Once drawn, the nonce never changes. */
  lemma {:induction false} NonceStable(run: seq<Event>, i: nat, j: nat)
    requires i <= j <= |run| && After(run[..i]).nonce != 0
    ensures After(run[..j]).nonce == After(run[..i]).nonce
    decreases j
  {
    hide After;
    if i < j {
      NonceStable(run, i, j - 1);
      AfterNext(run, j - 1);
    }
  }

  /** The nonce is set exactly when some registration has succeeded. */
  lemma {:induction false} NonceMeansRegistered(run: seq<Event>, n: nat)
    requires n <= |run|
    ensures After(run[..n]).nonce != 0 <==> exists i :: 0 <= i < n && Registers(run[i])
  {
    if n > 0 {
      NonceMeansRegistered(run, n - 1);
      AfterNext(run, n - 1);
    }
  }

  /** Event `m` is the accepted intent that is open before event `n`: neither
      replaced nor used since.
    */
  ghost predicate OpenAt(run: seq<Event>, m: nat, n: nat)
    requires n <= |run|
  {
    && m < n
    && AcceptedAt(run, m)
    && forall i :: m < i < n ==> !AcceptedAt(run, i) && !AdmittedAt(run, i)
  }

  /** The authorisation record always stems from the one open intent. */
  lemma {:induction false} AuthorisationHasIntent(run: seq<Event>, n: nat) returns (m: nat)
    requires n <= |run|
    ensures
      var st := After(run[..n]);
      (st.authCr3 == 0 && st.authPid == 0) ||
      (OpenAt(run, m, n) && st.authCr3 == IntentOf(run[m]).cr3 && st.authPid == IntentOf(run[m]).who)
  {
    hide IsAuthorized;
    m := 0;
    assert run[..0] == [];
    if n > 0 {
      AfterNext(run, n - 1);
      if AcceptedAt(run, n - 1) {
        m := n - 1;
      } else {
        m := AuthorisationHasIntent(run, n - 1);
      }
    }
  }

  /** An open intent is what the authorisation record holds. */
  lemma {:induction false} OpenIsRecorded(run: seq<Event>, m: nat, n: nat)
    requires n <= |run| && OpenAt(run, m, n)
    ensures IntentOf(run[m]).Intent? && After(run[..n]).authCr3 == IntentOf(run[m]).cr3
    decreases n
  {
    hide After, IsAuthorized;
    AfterNext(run, n - 1);
    if m < n - 1 {
      OpenIsRecorded(run, m, n - 1);
      assert !AcceptedAt(run, n - 1) && !AdmittedAt(run, n - 1);
    }
  }

  /** Every admitted write has its own accepted intent: the latest one before
      it, from the kernel's tables, not used by any write since, and itself
      after a successful registration.
    */
  lemma AdmittedHasOwnIntent(run: seq<Event>, k: nat) returns (m: nat)
    requires k < |run| && AdmittedAt(run, k)
    ensures OpenAt(run, m, k) && IntentOf(run[m]).cr3 == run[k].kernelPgd != 0
    ensures exists r :: 0 <= r < m && Registers(run[r])
  {
    m := AuthorisationHasIntent(run, k);
    NonceMeansRegistered(run, m);
  }

  /** The intent that is open before event `n` came from the given tables. */
  ghost predicate OpenFrom(run: seq<Event>, n: nat, pgd: u64)
    requires n <= |run|
  {
    exists m: nat :: m < n && OpenAt(run, m, n) && IntentOf(run[m]).Intent? && IntentOf(run[m]).cr3 == pgd
  }

  /** Whoever writes, a hostile write is admitted if and only if the open intent
      came from the kernel's tables.
    */
  lemma AdmittedIffKernelIntent(run: seq<Event>, k: nat)
    requires k < |run| && run[k].WriteFault? && Hostile(run[k].kind)
    ensures AdmittedAt(run, k) <==> run[k].kernelPgd != 0 && OpenFrom(run, k, run[k].kernelPgd)
  {
    hide After, OpenAt, Hostile;
    if AdmittedAt(run, k) {
      var m := AdmittedHasOwnIntent(run, k);
      OpenIsRecorded(run, m, k);
    }
    if OpenFrom(run, k, run[k].kernelPgd) {
      var m: nat :| m < k && OpenAt(run, m, k) && IntentOf(run[m]).Intent? && IntentOf(run[m]).cr3 == run[k].kernelPgd;
      OpenIsRecorded(run, m, k);
    }
  }

  /** One address space registers and announces, another writes: the write is
      admitted if and only if the announcing one is the kernel's, and so never
      because the writer announced it.
    */
  lemma WriterNotConsulted(random: u32, announcer: u64, who: u32, kernelPgd: u64, writer: u64)
    requires kernelPgd != 0
    ensures
      var intent := Cpuid(HEKI_MAGIC, DrawNonce32(random), announcer, who);
      var run := [Register(true, true, true, random), intent, WriteFault(Malicious, kernelPgd, writer, true)];
      AdmittedAt(run, 2) <==> announcer == kernelPgd
  {
    hide DrawNonce32, After;
    var intent := Cpuid(HEKI_MAGIC, DrawNonce32(random), announcer, who);
    var run := [Register(true, true, true, random), intent, WriteFault(Malicious, kernelPgd, writer, true)];
    assert run[..0] == [] && After([]) == INITIAL by { AfterNothing(); }
    AfterNext(run, 0);
    AfterNext(run, 1);
  }

  lemma AfterNothing()
    ensures After([]) == INITIAL
  {
  }

  /** Two admitted writes never share an intent. */
  lemma IntentsNotReused(run: seq<Event>, j: nat, k: nat)
    requires j < k < |run| && AdmittedAt(run, j) && AdmittedAt(run, k)
    ensures exists m :: j < m < k && AcceptedAt(run, m)
  {
    hide AdmittedAt, AcceptedAt;
    var m := AdmittedHasOwnIntent(run, k);
    assert m != j by { NotBoth(run, j); }
    assert m > j;
  }

  lemma NotBoth(run: seq<Event>, k: nat)
    requires k < |run| && AdmittedAt(run, k)
    ensures !AcceptedAt(run, k)
  {
  }

  function AdmittedCount(run: seq<Event>, n: nat): nat
    requires n <= |run|
  {
    if n == 0 then 0 else AdmittedCount(run, n - 1) + if AdmittedAt(run, n - 1) then 1 else 0
  }

  function AcceptedCount(run: seq<Event>, n: nat): nat
    requires n <= |run|
  {
    if n == 0 then 0 else AcceptedCount(run, n - 1) + if AcceptedAt(run, n - 1) then 1 else 0
  }

  /** Admitted writes never outnumber accepted intents; while an authorisation
      is open there is one intent to spare.
    */
  lemma {:induction false} AdmittedBounded(run: seq<Event>, n: nat)
    requires n <= |run|
    ensures
      var st := After(run[..n]);
      AdmittedCount(run, n) + (if st.authCr3 != 0 || st.authPid != 0 then 1 else 0) <= AcceptedCount(run, n)
  {
    assert run[..0] == [];
    if n > 0 {
      AdmittedBounded(run, n - 1);
      AfterNext(run, n - 1);
    }
  }

  // -------------------------------------------------------------- the running handler

  class Bridge {
    var st: State
    ghost var run: seq<Event>

    ghost predicate Valid()
      reads this
    {
      st == After(run)
    }

    constructor ()
      ensures Valid() && run == []
    {
      st, run := INITIAL, [];
    }

    /** A CPUID exit of the guest. */
    method CpuidIntercept(eax: u32, ecx: u32, cr3: u64, who: u32)
      requires Valid()
      modifies this
      ensures Valid() && run == old(run) + [Cpuid(eax, ecx, cr3, who)]
    {
      hide After, Hostile, IsAuthorized;
      ghost var e := Cpuid(eax, ecx, cr3, who);
      if eax == HEKI_MAGIC {
        if ecx == st.nonce && st.nonce != 0 {
          st := st.(authCr3 := cr3, authPid := who);
        }
      }
      AfterAppend(run, e);
      run := run + [e];
    }

    /** A client message, answered with the nonce, with 1, or with 0 for failure.
        A registration translates its address in the kernel's tables and guards
        the pages it names; without kernel tables it succeeds at once. Who is
        taken for the sender of a mock intent, the random number, and what a
        failed read leaves of the guard's copy, are inputs.
      */
    method HandleClient(
      s: Session, guard: Guard, kernelPgd: u64, msg: Message, who: u32, random: u32, torn: seq<byte>)
      returns (response: u32, ghost e: Event)
      requires Valid() && s.Valid() && guard.Valid() && |torn| == TABLE_SIZE
      modifies this, guard, s`calls
      ensures Valid() && run == old(run) + [e] && guard.Valid()
      ensures msg.Registration? ==> e.Register? && e.pgdSet == (kernelPgd != 0) && e.random == random
      ensures msg.Registration? ==> response == if Registers(e) then st.nonce else 0
      ensures msg.Registration? && Registers(e) ==> response != 0
      ensures msg.Registration? && kernelPgd != 0 ==>
        var gpa := Translate(s.PhysicalMemory(), kernelPgd, msg.gva);
        if e.translated then gpa.Some? else gpa.None? || Trouble(s, old(s.calls), s.calls)
      ensures msg.Registration? && kernelPgd != 0 && Registers(e) ==>
        && |guard.regions| == |old(guard.regions)| + 1 && old(guard.regions) <= guard.regions
        && Registered(s.PhysicalMemory(), guard.tableGpa, kernelPgd, msg, guard.regions[|old(guard.regions)|])
      ensures msg.MockIntent? ==> e == Mock(msg.gva, who) && response == 1
      ensures msg.Unknown? ==> e == Garbage && response == 0
    {
      hide After, DrawNonce, DrawNonce32, Hostile, IsAuthorized, Translate, HashOf;
      response := 0;
      match msg {
        case Registration(gva, size, critical, name) =>
          var translated, protected := false, false;
          if kernelPgd != 0 {
            var gpa := GvaToGpa(s, kernelPgd, gva);
            translated := gpa.Some?;
            if translated {
              TranslateBound(s.PhysicalMemory(), kernelPgd, gva);
              protected := guard.ProtectDynamic(s, gpa.value, size, critical, name, torn);
            }
          }
          e := Register(kernelPgd != 0, translated, protected, random);
          if kernelPgd == 0 || (translated && protected) {
            if st.nonce == 0 {
              st := st.(nonce := if kernelPgd == 0 then MOCK_NONCE else DrawNonce32(random));
            }
            response := st.nonce;
          }
        case MockIntent(gva) =>
          if gva % WORD32 == st.nonce && st.nonce != 0 {
            st := st.(authCr3 := MOCK_CR3, authPid := who);
          }
          response := 1;
          e := Mock(gva, who);
        case Unknown =>
          e := Garbage;
      }
      AfterAppend(run, e);
      run := run + [e];
    }

    /** A write fault: classified, admitted if the bridge is open, else signalled. */
    method ProcessFault(regions: seq<Region>, table: u64, kernelPgd: u64, f: Fault)
      returns (r: Response, ghost h: Hit)
      requires Valid()
      modifies this
      ensures Valid() && IsHit(regions, f.gpa, h)
      ensures
        var e := WriteFault(Classify(regions, table, h, f), kernelPgd, f.writer, InSyscallTable(table, f.gpa));
        run == old(run) + [e] && r == old(Respond(st, e))
    {
      hide After, IsHit, InSyscallTable;
      var hit := CheckBounds(regions, f.gpa);
      h := hit;
      HitInRange(regions, f.gpa, h);
      var kind := Classify(regions, table, hit, f);
      var target := InSyscallTable(table, f.gpa);
      ghost var e := WriteFault(kind, kernelPgd, f.writer, target);
      if kind.Ignored? {
        r := NoAction;
      } else if kind.Collateral? {
        r := SingleStep;
      } else if kind.Legitimate? {
        r := Tolerate;
      } else if IsAuthorized(st, kernelPgd, UNIDENTIFIED) {
        st := st.(authCr3 := 0, authPid := 0);
        r := Admit;
      } else {
        r := Signal(target || kind.Malicious?);
      }
      AfterAppend(run, e);
      run := run + [e];
    }
  }

  /** The region that a registration leaves: at the translation of its address,
      with a baseline of the bytes it watches, which are the system call table's
      if the client named it so.
    */
  ghost predicate Registered(ram: seq<byte>, table: u64, pgd: u64, msg: Message, r: Region)
    requires msg.Registration?
  {
    var watched := Watched(ram, table, r);
    && Translate(ram, pgd, msg.gva) == Some(r.gpa) && r.size == msg.size > 0 && r.critical == msg.critical
    && r.name == msg.name[..NameLength(msg.name)]
    && watched.Some? && Baselined(r) && r.baseline == HashOf(watched.value)
  }

  lemma AfterAppend(run: seq<Event>, e: Event)
    ensures After(run + [e]) == Next(After(run), e)
  {
    assert (run + [e])[..|run|] == run;
  }

  lemma HitInRange(regions: seq<Region>, gpa: u64, h: Hit)
    requires IsHit(regions, gpa, h)
    ensures h.Miss? || h.region < |regions|
  {
  }

  /** The first region on whose pages the address lies owns the byte and is critical. */
  ghost predicate FirstIsCritical(regions: seq<Region>, gpa: u64) {
    exists i: nat :: FirstMatch(regions, gpa, i) && ByteTest(regions[i], gpa) && regions[i].critical
  }

  /** The address is found on no region's pages but lies in the system call table. */
  ghost predicate OnlyInTable(regions: seq<Region>, table: u64, gpa: u64) {
    && (forall i :: 0 <= i < |regions| ==> !PageTest(regions[i], gpa))
    && table != 0 && table <= gpa < (table + 4096) % WORD64
  }

  /** The staging override covers the address: the first region on whose pages it
      lies owns the byte and bears one of two names, or only the table holds it.
    */
  ghost predicate Overridden(regions: seq<Region>, table: u64, gpa: u64) {
    || (exists i: nat :: && FirstMatch(regions, gpa, i) && ByteTest(regions[i], gpa)
                         && (regions[i].name == "sys_call_table" || regions[i].name == "kernel_text"))
    || OnlyInTable(regions, table, gpa)
  }

  /** With the bridge closed, for every table of regions: a write is signalled if
      and only if its address is not shadowed and no override covers it. The
      signal is malicious if and only if the address is in the system call table
      or the first region on whose pages it lies owns the byte and is critical.
    */
  lemma WriteSignalledIff(regions: seq<Region>, table: u64, h: Hit, pgd: u64, f: Fault, st: State)
    requires IsHit(regions, f.gpa, h) && f.write && !IsAuthorized(st, pgd, UNIDENTIFIED)
    ensures h.Miss? || h.region < |regions|
    ensures
      var e := WriteFault(Classify(regions, table, h, f), pgd, f.writer, InSyscallTable(table, f.gpa));
      var tolerated := f.allowPatch && Overridden(regions, table, f.gpa);
      && (Respond(st, e).Signal? <==> !Shadowed(regions, f.gpa) && !tolerated)
      && (Respond(st, e) == Tolerate <==> !Shadowed(regions, f.gpa) && tolerated)
      && (Respond(st, e) == SingleStep <==> Shadowed(regions, f.gpa))
      && (Respond(st, e).Signal? ==>
            (Respond(st, e).malicious <==>
              || (table != 0 && table <= f.gpa < (table + 4096) % WORD64)
              || FirstIsCritical(regions, f.gpa)))
  {
    hide Shadowed, PageTest, ByteTest;
    HitInRange(regions, f.gpa, h);
    DirectIffNotShadowed(regions, f.gpa, h);
    forall i: nat | FirstMatch(regions, f.gpa, i) ensures !h.Miss? && h.region == i {
      assert !h.Miss?;
    }
  }

  /** A read is ignored, and changes nothing, whatever it reads. */
  lemma ReadsIgnored(regions: seq<Region>, table: u64, h: Hit, pgd: u64, f: Fault, st: State)
    requires IsHit(regions, f.gpa, h) && !f.write
    ensures h.Miss? || h.region < |regions|
    ensures
      var e := WriteFault(Classify(regions, table, h, f), pgd, f.writer, InSyscallTable(table, f.gpa));
      Respond(st, e) == NoAction && Next(st, e) == st
  {
    hide InSyscallTable;
    HitInRange(regions, f.gpa, h);
  }

  /** Two regions own one byte, the second a critical one: a write there is
      signalled, but not as malicious, whatever the state of a closed bridge.
    */
  lemma CriticalByteUnderstated(pgd: u64, writer: u64, st: State)
    requires !IsAuthorized(st, pgd, UNIDENTIFIED)
    ensures
      var a := Region("a", 0x1000, 0x100, false, 0, true, 0);
      var b := Region("b", 0x1000, 0x100, true, 0, true, 0);
      var f := Fault(0x1000, true, writer, false);
      && Sees(b, 0x1000) && IsHit([a, b], 0x1000, Direct(0))
      && Respond(st, WriteFault(Classify([a, b], 0, Direct(0), f), pgd, writer, false)) == Signal(false)
  {
    hide PageTest, ByteTest, IsAuthorized;
    var a := Region("a", 0x1000, 0x100, false, 0, true, 0);
    var b := Region("b", 0x1000, 0x100, true, 0, true, 0);
    TestsAre(a, 0x1000);
    TestsAre(b, 0x1000);
    assert [a, b][0] == a;
  }

  /** A guarded byte of a table that fits is attributed to a region that owns
      it, unless it is shadowed.
    */
  lemma GuardedWriteSignalled(regions: seq<Region>, table: u64, h: Hit, pgd: u64, f: Fault, st: State)
    requires AllFit(regions) && IsHit(regions, f.gpa, h) && Guarded(regions, f.gpa)
    requires f.write && !f.allowPatch && !IsAuthorized(st, pgd, UNIDENTIFIED)
    ensures !h.Miss? && h.region < |regions|
    ensures
      var e := WriteFault(Classify(regions, table, h, f), pgd, f.writer, InSyscallTable(table, f.gpa));
      && (Respond(st, e).Signal? <==> !Shadowed(regions, f.gpa))
      && (Respond(st, e).Signal? ==>
            && InBytes(regions[h.region], f.gpa)
            && (Respond(st, e).malicious <==> InSyscallTable(table, f.gpa) || regions[h.region].critical))
  {
    hide Shadowed, PageTest, ByteTest, Overridden;
    SeenIsGuarded(regions, f.gpa);
    DirectIffNotShadowed(regions, f.gpa, h);
    WriteSignalledIff(regions, table, h, pgd, f, st);
    if h.Direct? {
      SeesIsInBytes(regions[h.region], f.gpa);
    }
  }
}

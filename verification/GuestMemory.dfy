/** Guest physical memory, reached through the address space of the QEMU
    process: the retrying transfer loop, the memory slots laid out over that
    address space, and the chunked reads and writes across slots.
  */
module GuestMemory {
  import opened Bits
  import opened Common

  const IO_RETRY_MAX: nat := 3
  const MAX_MEMSLOTS: nat := 256
  const MIN_RAM_MAPPING_SIZE: nat := 0x20_0000
  const UINT64_MAX: nat := 0xFFFF_FFFF_FFFF_FFFF

  /** The memory of a process. */
  type Memory = map<nat, byte>

  /** What a process_vm_readv or process_vm_writev call is about to do. */
  datatype Outcome = Moved(count: nat) | Failed(errno: int)

  predicate IsTransient(o: Outcome) {
    // EINTR, EAGAIN, EBUSY, ETIMEDOUT
    o.Failed? && o.errno in {4, 11, 16, 110}
  }

  /** A call that failed in a way that may pass: interrupted, out of resources,
      busy or timed out.
    */
  predicate MayPass(o: Outcome) {
    o.Failed? && (o.errno == 4 || o.errno == 11 || o.errno == 16 || o.errno == 110)
  }

  /** Calls `from .. to` contain one that the transfer loop gives up on: a hard
      error, an empty transfer, or the last of four transient errors in a row.
    */
  ghost predicate GaveUp(oracle: nat -> Outcome, from: nat, to: nat) {
    exists c: nat :: from <= c < to &&
      (if oracle(c).Moved? then oracle(c).count == 0
       else !MayPass(oracle(c)) || RetriesSpent(oracle, from, c))
  }

  /** Call `c` is the last of a first attempt and three retries, all transient errors. */
  ghost predicate RetriesSpent(oracle: nat -> Outcome, from: nat, c: nat) {
    from + 3 <= c && forall d: nat :: c - 3 <= d <= c ==> MayPass(oracle(d))
  }

  /** What the loop knows when it gives up on call `c` after `retries` retries. */
  lemma {:induction false} GiveUpAt(oracle: nat -> Outcome, from: nat, c: nat, retries: nat)
    requires from + retries <= c && forall d: nat :: c - retries <= d < c ==> IsTransient(oracle(d))
    requires if oracle(c).Moved? then oracle(c).count == 0 else !IsTransient(oracle(c)) || retries >= IO_RETRY_MAX
    ensures GaveUp(oracle, from, c + 1)
  {
    assert oracle(c).Failed? && IsTransient(oracle(c)) ==> RetriesSpent(oracle, from, c);
  }

  lemma {:induction false} GaveUpMono(oracle: nat -> Outcome, from: nat, from': nat, to': nat, to: nat)
    requires from <= from' && to' <= to && GaveUp(oracle, from', to')
    ensures GaveUp(oracle, from, to)
  {
    var c: nat :| from' <= c < to' &&
      (if oracle(c).Moved? then oracle(c).count == 0
       else !MayPass(oracle(c)) || RetriesSpent(oracle, from', c));
    assert RetriesSpent(oracle, from', c) ==> RetriesSpent(oracle, from, c);
  }

  // ------------------------------------------------------------- flat memory

  /** A process has the range mapped; no user range reaches the top of the
      64-bit space.
    */
  predicate Mapped(m: Memory, addr: nat, n: nat) {
    addr + n <= UINT64_MAX && forall i :: addr <= i < addr + n ==> i in m
  }

  /** The `n` bytes at an address. */
  function Slice(m: Memory, addr: nat, n: nat): (r: seq<byte>)
    requires Mapped(m, addr, n)
    ensures |r| == n && forall i :: 0 <= i < n ==> r[i] == m[addr + i]
  {
    seq(n, i requires 0 <= i < n => m[addr + i])
  }

  /** Memory with `data` written at an address. */
  function Overlay(m: Memory, addr: nat, data: seq<byte>): Memory {
    map x | x in m :: if addr <= x < addr + |data| then data[x - addr] else m[x]
  }

  /** `m'` is `m` with exactly `data` written at an address. */
  ghost predicate Wrote(m: Memory, m': Memory, addr: nat, data: seq<byte>) {
    && m'.Keys == m.Keys
    && forall x :: x in m ==> m'[x] == if addr <= x < addr + |data| then data[x - addr] else m[x]
  }

  // ------------------------------------------------------------------- slots

  datatype Slot = Slot(gpa: u64, size: u64, host: u64, id: u32)

  /** The guest address at which slot `i` begins if all before it are contiguous. */
  function Base(slots: seq<Slot>, i: nat): nat
    requires i <= |slots|
  {
    if i == 0 then 0 else Base(slots, i - 1) + slots[i - 1].size
  }

  /** The amount of guest memory the slots hold. */
  function Total(slots: seq<Slot>): nat {
    Base(slots, |slots|)
  }

  /** Contiguous slots from guest address 0, none of them empty or wrapping. */
  predicate Layout(slots: seq<Slot>) {
    Total(slots) <= UINT64_MAX && forall i :: 0 <= i < |slots| ==> InPlace(slots, i)
  }

  predicate InPlace(slots: seq<Slot>, i: nat)
    requires i < |slots|
  {
    var s := slots[i];
    s.gpa == Base(slots, i) && s.size > 0 && s.host + s.size <= UINT64_MAX
  }

  lemma LayoutEnds(slots: seq<Slot>)
    requires Layout(slots)
    ensures Total(slots) <= UINT64_MAX && (slots == [] ==> Total(slots) == 0)
  {
  }

  /** No two slots are backed by the same host byte. */
  predicate Separate(slots: seq<Slot>) {
    forall i, j :: 0 <= i < j < |slots| ==>
      slots[i].host + slots[i].size <= slots[j].host || slots[j].host + slots[j].size <= slots[i].host
  }

  lemma {:induction false} BaseMono(slots: seq<Slot>, i: nat, j: nat)
    requires i <= j <= |slots|
    ensures Base(slots, i) <= Base(slots, j)
  {
    if i < j { BaseMono(slots, i, j - 1); }
  }

  lemma {:induction false} BaseAppend(slots: seq<Slot>, more: seq<Slot>, i: nat)
    requires i <= |slots|
    ensures Base(slots + more, i) == Base(slots, i)
  {
    if i > 0 { BaseAppend(slots, more, i - 1); }
  }

  /** The slot that holds guest address `g`, searching the first `n`. */
  function SlotAt(slots: seq<Slot>, n: nat, g: nat): (r: nat)
    requires n <= |slots| && g < Base(slots, n)
    ensures r < n && Base(slots, r) <= g < Base(slots, r) + slots[r].size
  {
    if g < Base(slots, n - 1) then SlotAt(slots, n - 1, g) else n - 1
  }

  lemma {:induction false} SlotAtIs(slots: seq<Slot>, n: nat, i: nat, g: nat)
    requires i < n <= |slots| && Base(slots, i) <= g < Base(slots, i) + slots[i].size
    ensures g < Base(slots, n) && SlotAt(slots, n, g) == i
  {
    if i < n - 1 { SlotAtIs(slots, n - 1, i, g); }
  }

  /** The host address behind guest address `g`. */
  function HostAt(slots: seq<Slot>, g: nat): (r: nat)
    requires g < Total(slots)
  {
    var i := SlotAt(slots, |slots|, g);
    slots[i].host + (g - Base(slots, i))
  }

  /** Separate slots never send two guest addresses to one host byte. */
  lemma HostInjective(slots: seq<Slot>, g: nat, h: nat)
    requires Separate(slots) && g < Total(slots) && h < Total(slots)
    ensures HostAt(slots, g) == HostAt(slots, h) ==> g == h
  {
    var i, j := SlotAt(slots, |slots|, g), SlotAt(slots, |slots|, h);
    if i != j {
      assert slots[i].host + slots[i].size <= slots[j].host || slots[j].host + slots[j].size <= slots[i].host;
    }
  }

  /** Every slot is backed by mapped host memory. */
  predicate Backed(slots: seq<Slot>, m: Memory) {
    forall i :: 0 <= i < |slots| ==> Mapped(m, slots[i].host, slots[i].size)
  }

  /** Guest physical memory as one flat sequence of bytes. */
  ghost function Ram(slots: seq<Slot>, m: Memory): (r: seq<byte>)
    requires Backed(slots, m)
    ensures |r| == Total(slots)
  {
    assert forall g :: 0 <= g < Total(slots) ==> HostAt(slots, g) in m;
    seq(Total(slots), g requires 0 <= g < Total(slots) => m[HostAt(slots, g)])
  }

  lemma RamByte(slots: seq<Slot>, m: Memory, i: nat, off: nat)
    requires Backed(slots, m) && i < |slots| && off < slots[i].size
    ensures
      var g := Base(slots, i) + off;
      g < Total(slots) && slots[i].host + off in m && Ram(slots, m)[g] == m[slots[i].host + off]
  {
    var g := Base(slots, i) + off;
    SlotAtIs(slots, |slots|, i, g);
    assert HostAt(slots, g) == slots[i].host + off;
  }

  lemma BaseEnd(slots: seq<Slot>, i: nat)
    requires i < |slots|
    ensures Base(slots, i) + slots[i].size <= Total(slots)
  {
    BaseMono(slots, i + 1, |slots|);
  }

  /** Within a slot, flat memory is a slice of the host's. */
  lemma RamSlice(slots: seq<Slot>, m: Memory, i: nat, off: nat, n: nat)
    requires Backed(slots, m) && i < |slots| && off + n <= slots[i].size
    ensures
      var g := Base(slots, i) + off;
      && g + n <= Total(slots)
      && Mapped(m, slots[i].host + off, n)
      && Ram(slots, m)[g..g + n] == Slice(m, slots[i].host + off, n)
  {
    hide Ram, Slice, Base, Total;
    var g := Base(slots, i) + off;
    BaseEnd(slots, i);
    assert Mapped(m, slots[i].host, slots[i].size);
    var r, s := Ram(slots, m)[g..g + n], Slice(m, slots[i].host + off, n);
    forall k | 0 <= k < n ensures r[k] == s[k] {
      RamByte(slots, m, i, off + k);
    }
  }

  lemma RamPrefixByte(slots: seq<Slot>, s: Slot, m: Memory, g: nat)
    requires Backed(slots, m) && Backed(slots + [s], m) && g < Total(slots)
    ensures g < Total(slots + [s]) && Ram(slots + [s], m)[g] == Ram(slots, m)[g]
  {
    var i := SlotAt(slots, |slots|, g);
    BaseAppend(slots, [s], i);
    RamByte(slots, m, i, g - Base(slots, i));
    RamByte(slots + [s], m, i, g - Base(slots, i));
  }

  lemma BackedFront(slots: seq<Slot>, s: Slot, m: Memory)
    requires Backed(slots + [s], m)
    ensures Backed(slots, m) && Mapped(m, s.host, s.size)
  {
    var all := slots + [s];
    assert all[|slots|] == s && forall i :: 0 <= i < |slots| ==> all[i] == slots[i];
  }

  /** Flat memory is the slots' mappings one after the other. */
  lemma RamIsConcatenation(slots: seq<Slot>, s: Slot, m: Memory)
    requires Backed(slots + [s], m)
    ensures Backed(slots, m) && Mapped(m, s.host, s.size)
    ensures Ram(slots + [s], m) == Ram(slots, m) + Slice(m, s.host, s.size)
  {
    var n := |slots|;
    BackedFront(slots, s, m);
    BaseAppend(slots, [s], n);
    RamSlice(slots + [s], m, n, 0, s.size);
    var r, front := Ram(slots + [s], m), Ram(slots, m);
    forall g | 0 <= g < |front| ensures r[g] == front[g] {
      RamPrefixByte(slots, s, m, g);
    }
    assert r == r[..|front|] + r[|front|..];
    assert r[..|front|] == front;
  }

  // ----------------------------------------------------- laying the slots out

  /** A line of /proc/<pid>/maps, or one that does not scan. */
  datatype MapLine = Malformed | Mapping(start: u64, end: u64, perms: string, path: string)

  predicate ContainsAny(s: string, names: seq<string>) {
    names != [] && (Contains(s, names[0]) || ContainsAny(s, names[1..]))
  }

  const NOT_RAM: seq<string> := ["[stack]", "[heap]", "[vdso]", "[vvar]", "[vsyscall]"]
  const RAM_NAMES: seq<string> := ["pc.ram", "memory-backend", "memfd:", "/dev/zero"]

  predicate IsCandidateRamMap(perms: string, path: string, span: nat) {
    && |perms| >= 2 && perms[0] == 'r' && perms[1] == 'w'
    && span >= MIN_RAM_MAPPING_SIZE
    && path != ""
    && !ContainsAny(path, NOT_RAM)
    && ContainsAny(path, RAM_NAMES)
  }

  /** A mapping counts as guest memory if and only if it is readable and
      writable, two megabytes or more, and its path holds one of four names and
      none of five others.
    */
  lemma CandidateIff(perms: string, path: string, span: nat)
    ensures IsCandidateRamMap(perms, path, span) <==>
      && "rw" <= perms && span >= 2 * 1024 * 1024
      && !Occurs(path, "[stack]") && !Occurs(path, "[heap]") && !Occurs(path, "[vdso]") && !Occurs(path, "[vvar]")
      && !Occurs(path, "[vsyscall]")
      && (Occurs(path, "pc.ram") || Occurs(path, "memory-backend") || Occurs(path, "memfd:")
          || Occurs(path, "/dev/zero"))
  {
    hide Contains, Occurs;
    AnyOf5(path, "[stack]", "[heap]", "[vdso]", "[vvar]", "[vsyscall]");
    AnyOf4(path, "pc.ram", "memory-backend", "memfd:", "/dev/zero");
    if path == "" {
      EmptyHolds("pc.ram");
      EmptyHolds("memory-backend");
      EmptyHolds("memfd:");
      EmptyHolds("/dev/zero");
    }
  }

  lemma EmptyHolds(t: string)
    requires t != ""
    ensures !Occurs("", t)
  {
  }

  lemma AnyOf4(s: string, a: string, b: string, c: string, d: string)
    ensures ContainsAny(s, [a, b, c, d]) <==> Occurs(s, a) || Occurs(s, b) || Occurs(s, c) || Occurs(s, d)
  {
    hide Contains, Occurs;
    ContainsIff(s, a);
    ContainsIff(s, b);
    ContainsIff(s, c);
    ContainsIff(s, d);
    assert [d][1..] == [] && [c, d][1..] == [d] && [b, c, d][1..] == [c, d] && [a, b, c, d][1..] == [b, c, d];
    assert ContainsAny(s, [d]) <==> Contains(s, d);
    assert ContainsAny(s, [c, d]) <==> Contains(s, c) || ContainsAny(s, [d]);
    assert ContainsAny(s, [b, c, d]) <==> Contains(s, b) || ContainsAny(s, [c, d]);
  }

  lemma AnyOf5(s: string, a: string, b: string, c: string, d: string, e: string)
    ensures ContainsAny(s, [a, b, c, d, e]) <==>
      Occurs(s, a) || Occurs(s, b) || Occurs(s, c) || Occurs(s, d) || Occurs(s, e)
  {
    hide Contains, Occurs;
    AnyOf4(s, b, c, d, e);
    ContainsIff(s, a);
    assert [a, b, c, d, e][1..] == [b, c, d, e];
  }

  predicate IsRam(l: MapLine) {
    l.Mapping? && l.start < l.end && IsCandidateRamMap(l.perms, l.path, l.end - l.start)
  }

  /** The RAM lines of the maps file, in order. */
  function RamLines(lines: seq<MapLine>): (r: seq<MapLine>)
    ensures forall i :: 0 <= i < |r| ==> IsRam(r[i])
  {
    if lines == [] then []
    else
      var l := lines[|lines| - 1];
      RamLines(lines[..|lines| - 1]) + if IsRam(l) then [l] else []
  }

  lemma {:induction false} RamLinesPrefix(lines: seq<MapLine>, i: nat)
    requires i <= |lines|
    ensures RamLines(lines[..i]) <= RamLines(lines)
    decreases |lines| - i
  {
    if i < |lines| {
      assert lines[..i + 1][..i] == lines[..i];
      RamLinesPrefix(lines, i + 1);
    } else {
      assert lines[..i] == lines;
    }
  }

  /** The kernel lists the mappings of a process without overlap. */
  predicate DisjointLines(lines: seq<MapLine>) {
    forall i, j :: 0 <= i < j < |lines| && lines[i].Mapping? && lines[j].Mapping? ==> lines[i].end <= lines[j].start
  }

  /** The RAM lines keep the order of the file. */
  lemma {:induction false} RamLinesDisjoint(lines: seq<MapLine>)
    requires DisjointLines(lines)
    ensures forall i, j :: 0 <= i < j < |RamLines(lines)| ==> RamLines(lines)[i].end <= RamLines(lines)[j].start
    ensures forall l :: l in RamLines(lines) ==> l in lines
  {
    if lines != [] {
      var front := lines[..|lines| - 1];
      var r := RamLines(front);
      RamLinesDisjoint(front);
      forall i | 0 <= i < |r| ensures lines[|lines| - 1].Mapping? ==> r[i].end <= lines[|lines| - 1].start {
        assert r[i] in front;
      }
    }
  }

  /** The slots that mirror the first `n` RAM lines. */
  predicate Mirrors(slots: seq<Slot>, ram: seq<MapLine>) {
    && |slots| <= |ram|
    && forall i :: 0 <= i < |slots| ==>
         && ram[i].Mapping?
         && slots[i].host == ram[i].start && slots[i].host + slots[i].size == ram[i].end && slots[i].id == i
  }

  lemma LayoutAppend(slots: seq<Slot>, s: Slot)
    requires Layout(slots) && s.gpa == Total(slots)
    requires s.size > 0 && s.host + s.size <= UINT64_MAX && Total(slots) + s.size <= UINT64_MAX
    ensures Layout(slots + [s]) && Total(slots + [s]) == Total(slots) + s.size
  {
    var all := slots + [s];
    BaseAppend(slots, [s], |slots|);
    forall i | 0 <= i < |all| ensures InPlace(all, i) {
      BaseAppend(slots, [s], i);
      assert i < |slots| ==> InPlace(slots, i);
    }
  }

  lemma MirrorsSeparate(slots: seq<Slot>, lines: seq<MapLine>)
    requires Mirrors(slots, RamLines(lines)) && DisjointLines(lines)
    ensures Separate(slots)
  {
    RamLinesDisjoint(lines);
  }

  /** Builds the slot table from the maps file: one slot per RAM line, up to
      the table's capacity and up to the end of the 64-bit guest space.
    */
  method EnumerateMemslots(lines: seq<MapLine>) returns (slots: seq<Slot>)
    ensures Layout(slots) && |slots| <= 256
    ensures Mirrors(slots, RamLines(lines))
    ensures DisjointLines(lines) ==> Separate(slots)
    ensures
      var ram := RamLines(lines);
      || |slots| == |ram|
      || |slots| == 256
      || Total(slots) + (ram[|slots|].end - ram[|slots|].start) > UINT64_MAX
  {
    hide IsCandidateRamMap, Separate, DisjointLines;
    slots := [];
    var nextGpa := 0;
    ghost var ram := RamLines(lines);
    var i := 0;
    assert lines[..0] == [];
    assert lines[..|lines|] == lines;
    while i < |lines| && |slots| < MAX_MEMSLOTS
      invariant i <= |lines| && |slots| <= MAX_MEMSLOTS
      invariant Layout(slots) && nextGpa == Total(slots)
      invariant |slots| == |RamLines(lines[..i])|
      invariant Mirrors(slots, ram)
    {
      var line := lines[i];
      RamLineAt(lines, i);
      i := i + 1;
      if IsRam(line) {
        var span := line.end - line.start;
        if UINT64_MAX - nextGpa < span {
          break;
        }
        var slot := Slot(nextGpa, span, line.start, |slots|);
        LayoutAppend(slots, slot);
        slots := slots + [slot];
        nextGpa := nextGpa + span;
      }
    }
    if DisjointLines(lines) { MirrorsSeparate(slots, lines); }
  }

  lemma RamLineAt(lines: seq<MapLine>, i: nat)
    requires i < |lines|
    ensures
      var n := |RamLines(lines[..i])|;
      && |RamLines(lines[..i + 1])| == n + (if IsRam(lines[i]) then 1 else 0)
      && (IsRam(lines[i]) ==> n < |RamLines(lines)| && RamLines(lines)[n] == lines[i])
  {
    assert lines[..i + 1][..i] == lines[..i];
    RamLinesPrefix(lines, i + 1);
  }

  // ------------------------------------------------------------- the session

  class Session {
    /** The QEMU process: its memory, and how its next transfer calls turn out. */
    var mem: Memory
    var calls: nat
    const oracle: nat -> Outcome
    const qemuPid: int
    const slots: seq<Slot>

    constructor (m: Memory, o: nat -> Outcome, pid: int, layout: seq<Slot>)
      requires Layout(layout) && Backed(layout, m)
      ensures mem == m && calls == 0 && oracle == o && qemuPid == pid && slots == layout && Valid()
    {
      mem, calls, oracle, qemuPid, slots := m, 0, o, pid, layout;
    }

    ghost predicate Valid()
      reads this
    {
      Layout(slots) && Backed(slots, mem)
    }

    /** Guest physical memory as the session sees it. */
    ghost function PhysicalMemory(): seq<byte>
      requires Valid()
      reads this
    {
      Ram(slots, mem)
    }

    /** How the next transfer of `len` bytes at `addr` turns out: EFAULT on an
        unmapped range, otherwise what the oracle says, cut to the range.
      */
    function NextOutcome(addr: nat, len: nat): (r: Outcome)
      reads this
      ensures r.Moved? ==> r.count <= len && Mapped(mem, addr, len)
    {
      if !Mapped(mem, addr, len) then Failed(14)
      else match oracle(calls)
           case Moved(n) => Moved(if n > len then len else n)
           case Failed(e) => Failed(e)
    }

    /** process_vm_readv of one range: the bytes moved, or an error. */
    method Readv(addr: nat, len: nat) returns (r: Outcome, data: seq<byte>)
      modifies this`calls
      ensures calls == old(calls) + 1 && r == old(NextOutcome(addr, len))
      ensures r.Moved? ==> data == Slice(mem, addr, len)[..r.count]
    {
      r, data := NextOutcome(addr, len), [];
      calls := calls + 1;
      if r.Moved? {
        data := Slice(mem, addr, len)[..r.count];
      }
    }

    /** process_vm_writev of one range. */
    method Writev(addr: nat, data: seq<byte>) returns (r: Outcome)
      modifies this`calls, this`mem
      ensures calls == old(calls) + 1 && r == old(NextOutcome(addr, |data|))
      ensures r.Moved? ==> Wrote(old(mem), mem, addr, data[..r.count])
      ensures r.Failed? ==> mem == old(mem)
    {
      r := NextOutcome(addr, |data|);
      calls := calls + 1;
      if r.Moved? {
        mem := Overlay(mem, addr, data[..r.count]);
      }
    }

    /** Reads `size` bytes of the QEMU process, retrying transient errors. */
    method ReadRemote(addr: u64, size: nat) returns (ok: bool, buf: seq<byte>)
      modifies this`calls
      ensures ok ==> Mapped(mem, addr, size) && buf == Slice(mem, addr, size)
      ensures !ok ==> qemuPid <= 0 || size == 0 || !Mapped(mem, addr, size) || GaveUp(oracle, old(calls), calls)
      ensures old(calls) <= calls <= old(calls) + 4 * size
    {
      buf := [];
      if qemuPid <= 0 || size == 0 {
        return false, buf;
      }
      var done, retries := 0, 0;
      while done < size
        invariant done <= size && retries <= IO_RETRY_MAX && (done == size ==> retries == 0)
        invariant old(calls) + retries <= calls <= old(calls) + 4 * done + retries
        invariant forall c: nat :: calls - retries <= c < calls ==> IsTransient(oracle(c))
        invariant done > 0 ==> Mapped(mem, addr, size)
        invariant |buf| == done && (done > 0 ==> buf == Slice(mem, addr, size)[..done])
        decreases size - done, IO_RETRY_MAX - retries
      {
        if done > 0 { MappedRest(mem, addr, size, done); }
        var outcome, data := Readv(addr + done, size - done);
        if outcome.Failed? {
          if IsTransient(outcome) && retries < IO_RETRY_MAX {
            retries := retries + 1;
            continue;
          }
          if Mapped(mem, addr, size) { GiveUpAt(oracle, old(calls), calls - 1, retries); }
          return false, buf;
        }
        if outcome.count == 0 {
          GiveUpAt(oracle, old(calls), calls - 1, retries);
          return false, buf;
        }
        retries := 0;
        buf := buf + data;
        done := done + outcome.count;
      }
      ok := true;
    }

    /** One attempt to write what is left of `data` after its first `moved` bytes. */
    method WriteRest(ghost was: Memory, addr: nat, data: seq<byte>, moved: nat) returns (r: Outcome)
      requires moved < |data| && Wrote(was, mem, addr, data[..moved])
      requires moved > 0 ==> Mapped(was, addr, |data|)
      modifies this`calls, this`mem
      ensures calls == old(calls) + 1
      ensures r.Moved? ==> Mapped(was, addr, |data|) && moved + r.count <= |data|
      ensures r.Moved? && r.count == 0 ==> oracle(old(calls)).Moved? && oracle(old(calls)).count == 0
      ensures r.Failed? ==> if Mapped(was, addr, |data|) then oracle(old(calls)) == r else !IsTransient(r)
      ensures r.Moved? ==> Wrote(was, mem, addr, data[..moved + r.count])
      ensures r.Failed? ==> mem == old(mem)
    {
      if Mapped(was, addr, |data|) { MappedRest(was, addr, |data|, moved); }
      r := Writev(addr + moved, data[moved..]);
    }

    /** Writes into the QEMU process, retrying transient errors; a failed write
        has written a prefix.
      */
    method WriteRemote(addr: u64, data: seq<byte>) returns (ok: bool, done: nat)
      modifies this`calls, this`mem
      ensures done <= |data| && Wrote(old(mem), mem, addr, data[..done])
      ensures ok ==> done == |data| && Mapped(old(mem), addr, |data|)
      ensures !ok ==>
        qemuPid <= 0 || |data| == 0 || !Mapped(old(mem), addr, |data|) || GaveUp(oracle, old(calls), calls)
      ensures old(calls) <= calls <= old(calls) + 4 * |data|
    {
      if qemuPid <= 0 || |data| == 0 {
        return false, 0;
      }
      var moved, retries := 0, 0;
      while moved < |data|
        invariant moved <= |data| && retries <= IO_RETRY_MAX && (moved == |data| ==> retries == 0)
        invariant old(calls) + retries <= calls <= old(calls) + 4 * moved + retries
        invariant forall c: nat :: calls - retries <= c < calls ==> IsTransient(oracle(c))
        invariant moved > 0 ==> Mapped(old(mem), addr, |data|)
        invariant Wrote(old(mem), mem, addr, data[..moved])
        decreases |data| - moved, IO_RETRY_MAX - retries
      {
        var outcome := WriteRest(old(mem), addr, data, moved);
        if outcome.Failed? {
          if IsTransient(outcome) && retries < IO_RETRY_MAX {
            retries := retries + 1;
            continue;
          }
          if Mapped(old(mem), addr, |data|) { GiveUpAt(oracle, old(calls), calls - 1, retries); }
          return false, moved;
        }
        if outcome.count == 0 {
          GiveUpAt(oracle, old(calls), calls - 1, retries);
          return false, moved;
        }
        retries := 0;
        moved := moved + outcome.count;
      }
      return true, moved;
    }

    /** The first slot that holds a guest address, or -1. */
    method FindMemslot(gpa: u64) returns (r: int)
      requires Valid()
      ensures -1 <= r < |slots|
      ensures r >= 0 ==> Base(slots, r) <= gpa < Base(slots, r) + slots[r].size
      ensures r < 0 ==> Total(slots) <= gpa
    {
      for i := 0 to |slots|
        invariant Base(slots, i) <= gpa
      {
        assert InPlace(slots, i);
        BaseMono(slots, i + 1, |slots|);
        if slots[i].gpa <= gpa < Wrap64(slots[i].gpa + slots[i].size) {
          return i;
        }
      }
      r := -1;
    }

    /** Reads as much of `want` bytes as the slot at a guest address holds. */
    method ReadChunk(current: u64, want: nat) returns (ok: bool, data: seq<byte>)
      requires Valid() && want > 0
      modifies this`calls
      ensures ok ==>
        && 0 < |data| <= want && current + |data| <= |PhysicalMemory()|
        && data == PhysicalMemory()[current..current + |data|]
      ensures !ok ==> qemuPid <= 0 || current >= |PhysicalMemory()| || GaveUp(oracle, old(calls), calls)
      ensures old(calls) <= calls <= old(calls) + 4 * (if ok then |data| else want)
    {
      var i := FindMemslot(current);
      if i < 0 {
        return false, [];
      }
      assert InPlace(slots, i);
      var offset := current - slots[i].gpa;
      var available := slots[i].size - offset;
      var chunk := if want > available then available else want;
      RamSlice(slots, mem, i, offset, chunk);
      ok, data := ReadRemote(slots[i].host + offset, chunk);
    }

    /** Reads guest physical memory slot by slot. */
    method ReadPhysical(gpa: u64, size: nat) returns (ok: bool, buf: seq<byte>)
      requires Valid()
      modifies this`calls
      ensures ok ==> gpa + size <= |PhysicalMemory()| && buf == PhysicalMemory()[gpa..gpa + size]
      ensures !ok ==>
        || size == 0 || qemuPid <= 0 || gpa + size > |PhysicalMemory()| || GaveUp(oracle, old(calls), calls)
      ensures old(calls) <= calls <= old(calls) + 4 * size
    {
      hide Ram, Layout, Backed, GaveUp, Total;
      buf := [];
      LayoutEnds(slots);
      if size == 0 || |slots| == 0 {
        return false, buf;
      }
      ghost var ram := PhysicalMemory();
      var done := 0;
      while done < size
        invariant done <= size && (done > 0 ==> gpa + done <= |ram|)
        invariant |buf| == done && (done > 0 ==> buf == ram[gpa..gpa + done])
        invariant old(calls) <= calls <= old(calls) + 4 * done
      {
        ghost var before := calls;
        var moved, data := ReadChunk(Wrap64(gpa + done), size - done);
        if !moved {
          if GaveUp(oracle, before, calls) { GaveUpMono(oracle, old(calls), before, calls, calls); }
          return false, buf;
        }
        SliceNext(ram, gpa, done, |data|);
        buf := buf + data;
        done := done + |data|;
      }
      ok := true;
    }

    /** Writes as much of `data` as the slot at a guest address holds. */
    method WriteChunk(current: u64, data: seq<byte>) returns (ok: bool, n: nat)
      requires Valid() && Separate(slots) && data != []
      modifies this`calls, this`mem
      ensures Valid() && n <= |data|
      ensures old(calls) <= calls <= old(calls) + 4 * (if ok then n else |data|)
      ensures RamWrote(slots, old(mem), mem, current, data[..n])
      ensures ok ==> n > 0 && current + n <= Total(slots)
      ensures !ok ==> qemuPid <= 0 || current >= Total(slots) || GaveUp(oracle, old(calls), calls)
    {
      var i := FindMemslot(current);
      if i < 0 {
        RamWroteNothing(slots, mem, current, data);
        return false, 0;
      }
      assert InPlace(slots, i);
      var offset := current - slots[i].gpa;
      var available := slots[i].size - offset;
      var chunk := if |data| > available then available else |data|;
      RamSlice(slots, mem, i, offset, chunk);
      ok, n := WriteRemote(slots[i].host + offset, data[..chunk]);
      assert data[..chunk][..n] == data[..n];
      WroteSlot(slots, old(mem), mem, i, offset, data[..n]);
    }

    /** Writes guest physical memory slot by slot; a failed write has written a prefix. */
    method WritePhysical(gpa: u64, data: seq<byte>) returns (ok: bool, done: nat)
      requires Valid() && Separate(slots)
      modifies this`calls, this`mem
      ensures Valid() && done <= |data|
      ensures PhysicalMemory() == Spliced(old(PhysicalMemory()), gpa, data[..done])
      ensures HostFrame(slots, old(mem), mem, gpa, done)
      ensures ok ==> done == |data| && gpa + |data| <= |PhysicalMemory()|
      ensures !ok ==>
        || data == [] || qemuPid <= 0 || gpa + |data| > |PhysicalMemory()| || GaveUp(oracle, old(calls), calls)
      ensures old(calls) <= calls <= old(calls) + 4 * |data|
    {
      ok, done := WriteLoop(gpa, data);
    }

    /** A write followed by a read of any range: where both succeed, the written
        bytes come back, and every other byte is what it was before.
      */
    method WriteThenRead(gpa: u64, data: seq<byte>, at: u64, size: nat) returns (ok: bool, buf: seq<byte>)
      requires Valid() && Separate(slots)
      modifies this`calls, this`mem
      ensures Valid()
      ensures ok ==> |buf| == size && gpa + |data| <= |old(PhysicalMemory())| && at + size <= |old(PhysicalMemory())|
      ensures ok ==> forall i :: 0 <= i < size ==>
        buf[i] == if gpa <= at + i < gpa + |data| then data[at + i - gpa] else old(PhysicalMemory())[at + i]
      ensures ok && at == gpa && size == |data| ==> buf == data
    {
      hide Ram, Backed, Layout, Separate, HostFrame, GaveUp;
      ghost var done;
      ok, done := WritePhysical(gpa, data);
      if ok {
        assert data[..done] == data;
        ok, buf := ReadPhysical(at, size);
      } else {
        buf := [];
      }
    }

    method WriteLoop(gpa: u64, data: seq<byte>) returns (ok: bool, done: nat)
      requires Valid() && Separate(slots)
      modifies this`calls, this`mem
      ensures Valid() && done <= |data|
      ensures RamWrote(slots, old(mem), mem, gpa, data[..done])
      ensures ok ==> done == |data| && gpa + |data| <= Total(slots)
      ensures !ok ==> data == [] || qemuPid <= 0 || gpa + |data| > Total(slots) || GaveUp(oracle, old(calls), calls)
      ensures old(calls) <= calls <= old(calls) + 4 * |data|
    {
      hide RamWrote, Separate, Layout, Backed, GaveUp, Total;
      RamWroteNothing(slots, mem, gpa, data);
      LayoutEnds(slots);
      done := 0;
      if data == [] || |slots| == 0 {
        return false, done;
      }
      while done < |data|
        invariant Valid() && done <= |data| && (done > 0 ==> gpa + done <= Total(slots))
        invariant RamWrote(slots, old(mem), mem, gpa, data[..done])
        invariant old(calls) <= calls <= old(calls) + 4 * done
      {
        ghost var before, m1 := calls, mem;
        var sent, n := WriteChunk(Wrap64(gpa + done), data[done..]);
        RamWroteNext(slots, old(mem), m1, mem, gpa, data, done, n);
        done := done + n;
        if !sent {
          if GaveUp(oracle, before, calls) { GaveUpMono(oracle, old(calls), before, calls, calls); }
          return false, done;
        }
      }
      ok := true;
    }
  }

  // ---------------------------------------------------- writes as flat memory

  lemma SliceNext(ram: seq<byte>, gpa: nat, done: nat, n: nat)
    requires gpa + done + n <= |ram|
    ensures ram[gpa..gpa + done] + ram[gpa + done..gpa + done + n] == ram[gpa..gpa + (done + n)]
  {
  }

  /** Flat memory with `data` written at `gpa`. */
  function Spliced(ram: seq<byte>, gpa: nat, data: seq<byte>): (r: seq<byte>)
    ensures |r| == |ram|
    ensures forall g :: 0 <= g < |ram| ==> r[g] == if gpa <= g < gpa + |data| then data[g - gpa] else ram[g]
  {
    seq(|ram|, g requires 0 <= g < |ram| => if gpa <= g < gpa + |data| then data[g - gpa] else ram[g])
  }

  /** Host bytes that do not back the written guest range are unchanged. */
  ghost predicate HostFrame(slots: seq<Slot>, m: Memory, m': Memory, gpa: nat, n: nat) {
    && m'.Keys == m.Keys
    && forall x :: x in m && m'[x] != m[x] ==> BacksRange(slots, gpa, n, x)
  }

  ghost predicate BacksRange(slots: seq<Slot>, gpa: nat, n: nat, x: nat) {
    exists g :: gpa <= g < gpa + n && g < Total(slots) && HostAt(slots, g) == x
  }

  /** `m'` is `m` with `data` written at guest address `gpa` and nothing else. */
  ghost predicate RamWrote(slots: seq<Slot>, m: Memory, m': Memory, gpa: nat, data: seq<byte>) {
    && HostFrame(slots, m, m', gpa, |data|)
    && forall g :: 0 <= g < Total(slots) && HostAt(slots, g) in m ==> ByteWrote(slots, m, m', gpa, data, g)
  }

  ghost predicate ByteWrote(slots: seq<Slot>, m: Memory, m': Memory, gpa: nat, data: seq<byte>, g: nat)
    requires g < Total(slots) && HostAt(slots, g) in m && m'.Keys == m.Keys
  {
    m'[HostAt(slots, g)] == if gpa <= g < gpa + |data| then data[g - gpa] else m[HostAt(slots, g)]
  }

  lemma RamWroteNothing(slots: seq<Slot>, m: Memory, gpa: nat, data: seq<byte>)
    ensures RamWrote(slots, m, m, gpa, data[..0])
  {
  }

  /** A write inside one slot is a write to flat memory. */
  lemma WroteSlot(slots: seq<Slot>, m: Memory, m': Memory, i: nat, off: nat, data: seq<byte>)
    requires Separate(slots) && Backed(slots, m) && i < |slots| && off + |data| <= slots[i].size
    requires Wrote(m, m', slots[i].host + off, data)
    ensures RamWrote(slots, m, m', Base(slots, i) + off, data)
    ensures Backed(slots, m')
  {
    WroteFrame(slots, m, m', i, off, data);
    forall g | 0 <= g < Total(slots) && HostAt(slots, g) in m
      ensures ByteWrote(slots, m, m', Base(slots, i) + off, data, g)
    {
      WroteByte(slots, i, off, |data|, g);
    }
  }

  lemma WroteFrame(slots: seq<Slot>, m: Memory, m': Memory, i: nat, off: nat, data: seq<byte>)
    requires i < |slots| && off + |data| <= slots[i].size && Wrote(m, m', slots[i].host + off, data)
    ensures HostFrame(slots, m, m', Base(slots, i) + off, |data|)
    ensures Backed(slots, m) ==> Backed(slots, m')
  {
    var gpa, host := Base(slots, i) + off, slots[i].host + off;
    forall x | x in m && m'[x] != m[x] ensures BacksRange(slots, gpa, |data|, x) {
      var g := gpa + (x - host);
      SlotAtIs(slots, |slots|, i, g);
      assert HostAt(slots, g) == x;
    }
  }

  /** A guest byte is behind a host range inside a slot exactly when it is in the matching guest range. */
  lemma WroteByte(slots: seq<Slot>, i: nat, off: nat, n: nat, g: nat)
    requires Separate(slots) && i < |slots| && off + n <= slots[i].size && g < Total(slots)
    ensures
      var gpa, host := Base(slots, i) + off, slots[i].host + off;
      && (gpa <= g < gpa + n <==> host <= HostAt(slots, g) < host + n)
      && (gpa <= g < gpa + n ==> HostAt(slots, g) - host == g - gpa)
  {
    var gpa, host := Base(slots, i) + off, slots[i].host + off;
    if gpa <= g < gpa + n {
      SlotAtIs(slots, |slots|, i, g);
    }
    var x := HostAt(slots, g);
    if host <= x < host + n {
      var h := gpa + (x - host);
      SlotAtIs(slots, |slots|, i, h);
      HostInjective(slots, g, h);
    }
  }

  lemma RamWroteNext(slots: seq<Slot>, m: Memory, m1: Memory, m2: Memory, gpa: nat, data: seq<byte>, k: nat, n: nat)
    requires k + n <= |data|
    requires RamWrote(slots, m, m1, gpa, data[..k]) && RamWrote(slots, m1, m2, gpa + k, data[k..][..n])
    ensures RamWrote(slots, m, m2, gpa, data[..k + n])
  {
    forall x | x in m && m2[x] != m[x] ensures BacksRange(slots, gpa, k + n, x) {
      if m1[x] != m[x] {
        var g :| gpa <= g < gpa + k && g < Total(slots) && HostAt(slots, g) == x;
      } else {
        var g :| gpa + k <= g < gpa + k + n && g < Total(slots) && HostAt(slots, g) == x;
      }
    }
    forall g | 0 <= g < Total(slots) && HostAt(slots, g) in m
      ensures ByteWrote(slots, m, m2, gpa, data[..k + n], g)
    {
      assert ByteWrote(slots, m, m1, gpa, data[..k], g) && ByteWrote(slots, m1, m2, gpa + k, data[k..][..n], g);
    }
  }

  lemma MappedRest(m: Memory, addr: nat, n: nat, k: nat)
    requires Mapped(m, addr, n) && k <= n
    ensures Mapped(m, addr + k, n - k)
  {
  }
}

/** The library call graph as the loader recovers it from machine code: symbol
    resolution by binary search, breadth-first search with a depth limit and a
    capped queue, and the system call sites found on the way.
  */
module CallGraph {
  import opened Bits
  import opened Common

  const MAX_REACHABLE: nat := 4096
  const DEPTH_LIMIT: nat := 24

  datatype Symbol = Symbol(addr: u64, size: u64, name: string)

  /** An executable section of the library. */
  datatype Section = Section(vaddr: u64, data: seq<byte>)

  datatype Program = Program(syms: seq<Symbol>, secs: seq<Section>)

  // ----------------------------------------------------------------- symbol lookup

  predicate Covers(s: Symbol, addr: u64) {
    s.addr <= addr < Wrap64(s.addr + s.size)
  }

  /** Binary search among the symbols `lo .. hi`. */
  function BinarySearch(syms: seq<Symbol>, addr: u64, lo: nat, hi: nat): (r: Option<nat>)
    requires lo <= hi <= |syms|
    ensures r.Some? ==> lo <= r.value < hi && Covers(syms[r.value], addr)
    decreases hi - lo
  {
    if lo == hi then None
    else
      var mid := (lo + hi - 1) / 2;
      if addr < syms[mid].addr then BinarySearch(syms, addr, lo, mid)
      else if addr >= Wrap64(syms[mid].addr + syms[mid].size) then BinarySearch(syms, addr, mid + 1, hi)
      else Some(mid)
  }

  /** The scan downwards for the nearest symbol below the address. */
  function ScanDown(syms: seq<Symbol>, addr: u64, n: nat): (r: Option<nat>)
    requires n <= |syms|
    ensures r.Some? ==> r.value < n && Covers(syms[r.value], addr)
  {
    if n == 0 then None
    else if Covers(syms[n - 1], addr) then Some(n - 1)
    else if syms[n - 1].addr < addr then None
    else ScanDown(syms, addr, n - 1)
  }

  /** The symbol an address belongs to, as the loader resolves it. */
  function Resolve(syms: seq<Symbol>, addr: u64): (r: Option<nat>)
    ensures r.Some? ==> r.value < |syms| && Covers(syms[r.value], addr)
  {
    var b := BinarySearch(syms, addr, 0, |syms|);
    if b.Some? then b else ScanDown(syms, addr, |syms|)
  }

  method FindSymAtAddr(syms: seq<Symbol>, addr: u64) returns (r: Option<nat>)
    ensures r == Resolve(syms, addr)
  {
    hide BinarySearch, ScanDown;
    r := SearchLoop(syms, addr);
    if r.None? {
      r := ScanLoop(syms, addr);
    }
  }

  method SearchLoop(syms: seq<Symbol>, addr: u64) returns (r: Option<nat>)
    ensures r == BinarySearch(syms, addr, 0, |syms|)
  {
    hide Covers;
    var lo, hi := 0, |syms| - 1;
    while lo <= hi
      invariant 0 <= lo <= hi + 1 <= |syms|
      invariant BinarySearch(syms, addr, 0, |syms|) == BinarySearch(syms, addr, lo, hi + 1)
    {
      var mid := (lo + hi) / 2;
      if addr < syms[mid].addr {
        hi := mid - 1;
      } else if addr >= Wrap64(syms[mid].addr + syms[mid].size) {
        lo := mid + 1;
      } else {
        return Some(mid);
      }
    }
    r := None;
  }

  method ScanLoop(syms: seq<Symbol>, addr: u64) returns (r: Option<nat>)
    ensures r == ScanDown(syms, addr, |syms|)
  {
    hide Covers;
    var i: nat := |syms|;
    while i > 0
      invariant i <= |syms| && ScanDown(syms, addr, |syms|) == ScanDown(syms, addr, i)
    {
      if Covers(syms[i - 1], addr) {
        return Some(i - 1);
      }
      if syms[i - 1].addr < addr {
        return None;
      }
      i := i - 1;
    }
    r := None;
  }

  /** The loader's table: ascending addresses, no two the same. */
  predicate Sorted(syms: seq<Symbol>) {
    forall i, j :: 0 <= i < j < |syms| ==> syms[i].addr < syms[j].addr
  }

  /** The first `k` symbols are those that start at or below the address. */
  predicate Below(syms: seq<Symbol>, addr: u64, k: nat) {
    k <= |syms| && forall i :: 0 <= i < |syms| ==> (syms[i].addr <= addr <==> i < k)
  }

  lemma {:induction false} BelowExists(syms: seq<Symbol>, addr: u64, n: nat) returns (k: nat)
    requires Sorted(syms) && n <= |syms| && forall i :: n <= i < |syms| ==> syms[i].addr > addr
    ensures Below(syms, addr, k)
  {
    if n == 0 || syms[n - 1].addr <= addr {
      k := n;
    } else {
      k := BelowExists(syms, addr, n - 1);
    }
  }

  /** The positions a bisection looks at between `lo` and `hi` when it heads for
      the end of the first `k`; they depend on the numbers alone.
    */
  function Probes(lo: nat, hi: nat, k: nat): set<nat>
    decreases hi - lo
  {
    if lo >= hi then {}
    else
      var mid := (lo + hi - 1) / 2;
      {mid} + if mid >= k then Probes(lo, mid, k) else Probes(mid + 1, hi, k)
  }

  /** The nearest symbol at or below the address is always looked at. */
  lemma {:induction false} NearestProbed(lo: nat, hi: nat, k: nat)
    requires lo < k <= hi
    ensures k - 1 in Probes(lo, hi, k)
    decreases hi - lo
  {
    var mid := (lo + hi - 1) / 2;
    if mid >= k {
      NearestProbed(lo, mid, k);
    } else if mid < k - 1 {
      NearestProbed(mid + 1, hi, k);
    }
  }

  /** Some position that the bisection looks at covers the address. */
  ghost predicate ProbeCovers(syms: seq<Symbol>, addr: u64, lo: nat, hi: nat, k: nat) {
    exists m :: m in Probes(lo, hi, k) && m < |syms| && Covers(syms[m], addr)
  }

  /** The binary search succeeds exactly when a probe covers the address. */
  lemma {:induction false} SearchIff(syms: seq<Symbol>, addr: u64, lo: nat, hi: nat, k: nat)
    requires Below(syms, addr, k) && lo <= hi <= |syms|
    ensures BinarySearch(syms, addr, lo, hi).Some? <==> ProbeCovers(syms, addr, lo, hi, k)
    decreases hi - lo
  {
    hide Covers;
    if lo < hi {
      var mid := (lo + hi - 1) / 2;
      CoversMeans(syms[mid], addr);
      if mid >= k {
        SearchIff(syms, addr, lo, mid, k);
        assert Probes(lo, hi, k) == {mid} + Probes(lo, mid, k);
      } else {
        SearchIff(syms, addr, mid + 1, hi, k);
        assert Probes(lo, hi, k) == {mid} + Probes(mid + 1, hi, k);
      }
    }
  }

  lemma CoversMeans(s: Symbol, addr: u64)
    ensures Covers(s, addr) <==> s.addr <= addr && addr < Wrap64(s.addr + s.size)
  {
  }

  /** The scan looks at the nearest symbol, and at the one before it only if the
      nearest starts exactly at the address.
    */
  lemma {:induction false} ScanIff(syms: seq<Symbol>, addr: u64, n: nat, k: nat)
    requires Sorted(syms) && Below(syms, addr, k) && k <= n <= |syms|
    ensures ScanDown(syms, addr, n) ==
      if k == 0 then None
      else if Covers(syms[k - 1], addr) then Some(k - 1)
      else if k > 1 && syms[k - 1].addr == addr && Covers(syms[k - 2], addr) then Some(k - 2)
      else None
    decreases n
  {
    if n > k {
      ScanIff(syms, addr, n - 1, k);
    } else if k > 1 {
      assert syms[k - 2].addr < syms[k - 1].addr;
    }
  }

  /** For every sorted table, overlapping or not, an address resolves if and
      only if it is covered by a symbol that the bisection looks at, or by the
      one before an empty symbol that starts at the address.
    */
  lemma ResolvedIff(syms: seq<Symbol>, addr: u64, k: nat)
    requires Sorted(syms) && Below(syms, addr, k)
    ensures Resolve(syms, addr).Some? <==>
      || ProbeCovers(syms, addr, 0, |syms|, k)
      || (k > 1 && syms[k - 1].addr == addr && !Covers(syms[k - 1], addr) && Covers(syms[k - 2], addr))
  {
    hide BinarySearch, ScanDown, Probes, Covers;
    SearchIff(syms, addr, 0, |syms|, k);
    ScanIff(syms, addr, |syms|, k);
    if k > 0 {
      NearestProbed(0, |syms|, k);
    }
  }

  /** Resolution is always sound, and it never misses the nearest symbol at or
      below the address; a symbol that alone covers the address is the result.
    */
  lemma ResolveComplete(syms: seq<Symbol>, addr: u64, k: nat)
    requires Sorted(syms) && Below(syms, addr, k) && k > 0 && Covers(syms[k - 1], addr)
    ensures Resolve(syms, addr).Some?
    ensures (forall j :: 0 <= j < |syms| && Covers(syms[j], addr) ==> j == k - 1) ==> Resolve(syms, addr) == Some(k - 1)
  {
    hide BinarySearch, ScanDown, Probes, Covers;
    NearestProbed(0, |syms|, k);
    ResolvedIff(syms, addr, k);
  }

  /** A covered address that goes unresolved lies past the end of a later symbol
      that starts inside the covering one.
    */
  lemma UnresolvedMeansOverlap(syms: seq<Symbol>, addr: u64, c: nat)
    requires Sorted(syms) && c < |syms| && Covers(syms[c], addr) && Resolve(syms, addr).None?
    ensures exists j :: c < j < |syms| && syms[c].addr < syms[j].addr <= addr && !Covers(syms[j], addr)
  {
    hide BinarySearch, ScanDown, Probes;
    var k := BelowExists(syms, addr, |syms|);
    assert c < k;
    if Covers(syms[k - 1], addr) {
      ResolveComplete(syms, addr, k);
    }
    assert c != k - 1;
  }

  /** Symbols none of which reaches into the next. */
  predicate NonOverlapping(syms: seq<Symbol>) {
    forall i, j :: 0 <= i < j < |syms| ==> Wrap64(syms[i].addr + syms[i].size) <= syms[j].addr
  }

  /** Without overlap every covered address resolves to the symbol covering it. */
  lemma NonOverlappingResolves(syms: seq<Symbol>, addr: u64, c: nat)
    requires Sorted(syms) && NonOverlapping(syms) && c < |syms| && Covers(syms[c], addr)
    ensures Resolve(syms, addr) == Some(c)
  {
    hide BinarySearch, ScanDown, Probes, Resolve;
    var k := BelowExists(syms, addr, |syms|);
    assert syms[k - 1].addr <= addr;
    ResolveComplete(syms, addr, k);
  }

  /** With overlapping symbols a covered address can go unresolved. */
  lemma OverlapCanMiss()
    ensures
      var syms := [Symbol(0x1000, 0x100, "a"), Symbol(0x1010, 5, "b"), Symbol(0x1020, 5, "c")];
      Sorted(syms) && Covers(syms[0], 0x1050) && Resolve(syms, 0x1050) == None
  {
    var syms := [Symbol(0x1000, 0x100, "a"), Symbol(0x1010, 5, "b"), Symbol(0x1020, 5, "c")];
    assert BinarySearch(syms, 0x1050, 3, 3) == None;
    assert BinarySearch(syms, 0x1050, 2, 3) == None;
    assert BinarySearch(syms, 0x1050, 0, 3) == None;
    assert ScanDown(syms, 0x1050, 3) == None;
  }

  // -------------------------------------------------------------------- machine code

  predicate Placed(secs: seq<Section>) {
    forall i :: 0 <= i < |secs| ==> secs[i].vaddr + |secs[i].data| < WORD64
  }

  /** The bytes at an address, at most `len`, from the first section that holds it. */
  function BytesAt(secs: seq<Section>, addr: u64, len: nat): (r: seq<byte>)
    ensures |r| <= len
  {
    if secs == [] then []
    else
      var s := secs[0];
      if s.vaddr <= addr < Wrap64(s.vaddr + |s.data|) && addr - s.vaddr <= |s.data| then
        var rest := s.data[addr - s.vaddr..];
        if |rest| > len then rest[..len] else rest
      else BytesAt(secs[1..], addr, len)
  }

  /** The code of a symbol is that of the first section that holds its address,
      to the symbol's end or the section's, and nothing if none does.
    */
  lemma {:induction false} BytesAtIs(secs: seq<Section>, addr: u64, len: nat, i: nat)
    requires Placed(secs) && i <= |secs|
    requires forall k :: 0 <= k < i ==> !(secs[k].vaddr <= addr < secs[k].vaddr + |secs[k].data|)
    ensures i == |secs| ==> BytesAt(secs, addr, len) == []
    ensures i < |secs| && secs[i].vaddr <= addr < secs[i].vaddr + |secs[i].data| ==>
      var off := addr - secs[i].vaddr;
      var end := if off + len < |secs[i].data| then off + len else |secs[i].data|;
      BytesAt(secs, addr, len) == secs[i].data[off..end]
    decreases i
  {
    if secs != [] {
      var s := secs[0];
      assert s.vaddr + |s.data| < WORD64;
      if i > 0 {
        assert !(s.vaddr <= addr < s.vaddr + |s.data|);
        assert forall k :: 0 <= k < |secs| - 1 ==> secs[1..][k] == secs[k + 1];
        BytesAtIs(secs[1..], addr, len, i - 1);
      }
    }
  }

  function Body(p: Program, i: nat): seq<byte>
    requires i < |p.syms|
  {
    BytesAt(p.secs, p.syms[i].addr, p.syms[i].size)
  }

  /** A signed 32-bit little-endian displacement. */
  function Displacement(b: seq<byte>): int
    requires |b| == 4
  {
    var u := (b[0] as int) + 0x100 * (b[1] as int) + 0x1_0000 * (b[2] as int) + 0x100_0000 * (b[3] as int);
    if u < 0x8000_0000 then u else u - 0x1_0000_0000
  }

  /** The symbol that the instruction at offset `j` of symbol `i` calls or jumps to. */
  function CallAt(p: Program, i: nat, j: nat): (r: Option<nat>)
    requires i < |p.syms|
    ensures r.Some? ==> r.value < |p.syms|
  {
    var body := Body(p, i);
    if j + 4 < |body| && (body[j] == 0xE8 || body[j] == 0xE9) then
      var target := (p.syms[i].addr + j + 5 + Displacement(body[j + 1..j + 5])) % WORD64;
      Resolve(p.syms, target)
    else None
  }

  ghost predicate Edge(p: Program, a: nat, b: nat) {
    a < |p.syms| && exists j: nat :: CallAt(p, a, j) == Some(b)
  }

  /** The bytes from `at` on are a signed 32-bit number in two's complement, lowest first. */
  predicate Holds32(body: seq<byte>, at: nat, d: int) {
    var u := d % WORD32;
    && -0x8000_0000 <= d < 0x8000_0000 && at + 4 <= |body|
    && body[at] == u % 0x100 && body[at + 1] == u / 0x100 % 0x100
    && body[at + 2] == u / 0x1_0000 % 0x100 && body[at + 3] == u / 0x100_0000
  }

  /** Decoding undoes encoding, and every four bytes encode what they decode to. */
  lemma DisplacementIs(body: seq<byte>, at: nat, d: int)
    requires at + 4 <= |body|
    ensures Holds32(body, at, d) <==> d == Displacement(body[at..at + 4])
  {
    var b := body[at..at + 4];
    Digits(b[0], b[1], b[2], b[3]);
    if Holds32(body, at, d) {
      Recompose(d % WORD32);
      if d < 0 { DivModUnique(d, WORD32, -1, d + WORD32); } else { DivModUnique(d, WORD32, 0, d); }
    } else {
      var e := Displacement(b);
      if e < 0 { DivModUnique(e, WORD32, -1, e + WORD32); } else { DivModUnique(e, WORD32, 0, e); }
    }
  }

  lemma Digits(b0: byte, b1: byte, b2: byte, b3: byte)
    ensures
      var u := (b0 as int) + 0x100 * (b1 as int) + 0x1_0000 * (b2 as int) + 0x100_0000 * (b3 as int);
      && u < WORD32 && u % 0x100 == b0 && u / 0x100 % 0x100 == b1
      && u / 0x1_0000 % 0x100 == b2 && u / 0x100_0000 == b3
  {
    var h2 := (b2 as int) + 0x100 * (b3 as int);
    var h1 := (b1 as int) + 0x100 * h2;
    var u := (b0 as int) + 0x100 * h1;
    DivModUnique(u, 0x100, h1, b0);
    DivModUnique(h1, 0x100, h2, b1);
    DivModUnique(h2, 0x100, b3, b2);
    DivDiv(u, 0x100, 0x100);
    DivDiv(u, 0x1_0000, 0x100);
  }

  lemma Recompose(u: u32)
    ensures u == u % 0x100 + 0x100 * (u / 0x100 % 0x100)
                 + 0x1_0000 * (u / 0x1_0000 % 0x100) + 0x100_0000 * (u / 0x100_0000)
  {
  }

  /** A call or jump to an address stands at offset `j` of code at `addr`: its
      operand is the distance from the end of the instruction, modulo 2^64.
    */
  ghost predicate Targets(body: seq<byte>, addr: u64, j: nat, target: u64) {
    exists d: int :: CallHolds(body, j, d) && target == (addr + j + 5 + d) % WORD64
  }

  predicate CallHolds(body: seq<byte>, j: nat, d: int) {
    j < |body| && (body[j] == 0xE8 || body[j] == 0xE9) && Holds32(body, j + 1, d)
  }

  /** Without overlap, one symbol has an edge to another if and only if its code
      holds a call or jump to an address of the other.
    */
  lemma EdgeIff(p: Program, a: nat, b: nat)
    requires Sorted(p.syms) && NonOverlapping(p.syms) && a < |p.syms| && b < |p.syms|
    ensures Edge(p, a, b) <==>
      exists j: nat, target: u64 :: Targets(Body(p, a), p.syms[a].addr, j, target) && Covers(p.syms[b], target)
  {
    hide Resolve, Body, Displacement, Holds32;
    var body, addr := Body(p, a), p.syms[a].addr;
    if Edge(p, a, b) {
      var j: nat :| CallAt(p, a, j) == Some(b);
      var d := Displacement(body[j + 1..j + 5]);
      DisplacementIs(body, j + 1, d);
      var target := (addr + j + 5 + d) % WORD64;
      assert CallHolds(body, j, d);
      assert Targets(body, addr, j, target);
    }
    if j: nat, target: u64 :| Targets(body, addr, j, target) && Covers(p.syms[b], target) {
      var d: int :| CallHolds(body, j, d) && target == (addr + j + 5 + d) % WORD64;
      HoldsFits(body, j + 1, d);
      DisplacementIs(body, j + 1, d);
      NonOverlappingResolves(p.syms, target, b);
      assert CallAt(p, a, j) == Some(b);
    }
  }

  lemma HoldsFits(body: seq<byte>, at: nat, d: int)
    requires Holds32(body, at, d)
    ensures at + 4 <= |body|
  {
  }

  /** `v` is at most `n` call edges away from a seed. */
  ghost predicate Within(p: Program, seeds: seq<nat>, n: nat, v: nat) {
    if n == 0 then v in seeds
    else Within(p, seeds, n - 1, v) || exists u :: Within(p, seeds, n - 1, u) && Edge(p, u, v)
  }

  lemma WithinStep(p: Program, seeds: seq<nat>, n: nat, u: nat, v: nat)
    requires Within(p, seeds, n, u) && Edge(p, u, v)
    ensures Within(p, seeds, n + 1, v)
  {
  }

  lemma {:induction false} WithinMono(p: Program, seeds: seq<nat>, m: nat, n: nat, v: nat)
    requires m <= n && Within(p, seeds, m, v)
    ensures Within(p, seeds, n, v)
  {
    if m < n { WithinMono(p, seeds, m, n - 1, v); }
  }

  // ------------------------------------------------------------ breadth-first search

  /** The queue grouped by level: everything before `head` is scanned, the open
      level `depth` ends at `boundary`, and the next level follows it.
    */
  ghost predicate Shape(lev: seq<nat>, head: nat, depth: nat, boundary: nat) {
    && head <= boundary <= |lev|
    && (forall i :: 0 <= i < boundary ==> lev[i] <= depth)
    && (forall i :: head <= i < boundary ==> lev[i] == depth)
    && (forall i :: boundary <= i < |lev| ==> lev[i] == depth + 1)
  }

  /** Every queued symbol is as close to a seed as its level says. */
  ghost predicate Sound(p: Program, seeds: seq<nat>, order: seq<nat>, lev: seq<nat>) {
    && |order| == |lev|
    && forall i :: 0 <= i < |order| ==> order[i] < |p.syms| && Within(p, seeds, lev[i], order[i])
  }

  /** `v` is queued at level `n` or earlier. */
  ghost predicate Queued(order: seq<nat>, lev: seq<nat>, v: nat, n: nat) {
    |order| == |lev| && exists i :: 0 <= i < |order| && order[i] == v && lev[i] <= n
  }

  /** The callees of a symbol are queued, at most one level further. */
  ghost predicate Scanned(p: Program, order: seq<nat>, lev: seq<nat>, u: nat, n: nat) {
    forall v :: Edge(p, u, v) ==> Queued(order, lev, v, n + 1)
  }

  /** The seeds are queued at level 0, and the first `head` entries are scanned. */
  ghost predicate Closed(p: Program, seeds: seq<nat>, order: seq<nat>, lev: seq<nat>, head: nat) {
    && head <= |order| == |lev|
    && (forall v :: v in seeds ==> Queued(order, lev, v, 0))
    && (forall i :: 0 <= i < head ==> Scanned(p, order, lev, order[i], lev[i]))
  }

  lemma QueuedMono(order: seq<nat>, lev: seq<nat>, order': seq<nat>, lev': seq<nat>, v: nat, n: nat)
    requires Queued(order, lev, v, n) && order <= order' && lev <= lev' && |order'| == |lev'|
    ensures Queued(order', lev', v, n)
  {
    var i :| 0 <= i < |order| && order[i] == v && lev[i] <= n;
    assert order'[i] == v && lev'[i] == lev[i];
  }

  lemma ClosedMono(p: Program, seeds: seq<nat>, order: seq<nat>, lev: seq<nat>,
                   order': seq<nat>, lev': seq<nat>, head: nat)
    requires Closed(p, seeds, order, lev, head) && order <= order' && lev <= lev' && |order'| == |lev'|
    ensures Closed(p, seeds, order', lev', head)
  {
    hide Queued, Edge;
    forall v | v in seeds ensures Queued(order', lev', v, 0) {
      QueuedMono(order, lev, order', lev', v, 0);
    }
    forall i | 0 <= i < head ensures Scanned(p, order', lev', order'[i], lev'[i]) {
      assert Scanned(p, order, lev, order[i], lev[i]);
      forall v | Edge(p, order'[i], v) ensures Queued(order', lev', v, lev'[i] + 1) {
        QueuedMono(order, lev, order', lev', v, lev[i] + 1);
      }
    }
  }

  /** The search may stop: nothing is left, or the depth limit is reached. */
  predicate Stopped(lev: seq<nat>, head: nat, depth: nat) {
    head == |lev| || depth >= DEPTH_LIMIT
  }

  /** A stopped search has queued everything within the depth limit. */
  lemma {:induction false} StoppedComplete(p: Program, seeds: seq<nat>, order: seq<nat>, lev: seq<nat>,
                                           head: nat, depth: nat, boundary: nat, n: nat, v: nat)
    requires Shape(lev, head, depth, boundary) && Closed(p, seeds, order, lev, head) && Stopped(lev, head, depth)
    requires n <= DEPTH_LIMIT && Within(p, seeds, n, v)
    ensures Queued(order, lev, v, n)
    decreases n
  {
    hide Edge;
    if n > 0 {
      if Within(p, seeds, n - 1, v) {
        StoppedComplete(p, seeds, order, lev, head, depth, boundary, n - 1, v);
      } else {
        var u :| Within(p, seeds, n - 1, u) && Edge(p, u, v);
        StoppedComplete(p, seeds, order, lev, head, depth, boundary, n - 1, u);
        var i :| 0 <= i < |order| && order[i] == u && lev[i] <= n - 1;
        assert i < head;
        assert Scanned(p, order, lev, order[i], lev[i]);
        var k :| 0 <= k < |order| && order[k] == v && lev[k] <= lev[i] + 1;
      }
    }
  }

  predicate Distinct(order: seq<nat>) {
    forall i, j :: 0 <= i < j < |order| ==> order[i] != order[j]
  }

  /** The work list of the search: the queue and the visited marks. */
  class Worklist {
    const queue: array<nat>
    const visited: array<bool>
    var tail: nat
    ghost var level: seq<nat>

    ghost predicate Valid()
      reads this, queue, visited
    {
      && queue.Length == MAX_REACHABLE
      && tail <= MAX_REACHABLE
      && |level| == tail
      && Distinct(queue[..tail])
      && (forall i :: 0 <= i < tail ==> queue[i] < visited.Length)
      && (forall v :: 0 <= v < visited.Length ==> (visited[v] <==> v in queue[..tail]))
    }

    constructor (n: nat)
      ensures Valid() && tail == 0 && visited.Length == n && fresh(queue) && fresh(visited)
    {
      queue := new nat[MAX_REACHABLE](_ => 0);
      visited := new bool[n](_ => false);
      tail, level := 0, [];
    }

    /** Queues a symbol that is not queued yet, if there is room. */
    method Push(v: nat, ghost lev: nat)
      requires Valid() && v < visited.Length
      modifies this, queue, visited
      ensures Valid()
      ensures
        var old_ := old(queue[..tail]);
        if v !in old_ && |old_| < MAX_REACHABLE
        then queue[..tail] == old_ + [v] && level == old(level) + [lev]
        else queue[..tail] == old_ && level == old(level)
    {
      if !visited[v] && tail < MAX_REACHABLE {
        visited[v] := true;
        queue[tail] := v;
        assert queue[..tail] == old(queue[..tail]);
        tail := tail + 1;
        level := level + [lev];
        assert queue[..tail] == old(queue[..tail]) + [v];
      }
    }
  }

  /** Everything the search keeps true between iterations. */
  ghost predicate SearchInv(p: Program, seeds: seq<nat>, order: seq<nat>, lev: seq<nat>,
                            head: nat, depth: nat, boundary: nat) {
    && Sound(p, seeds, order, lev)
    && Shape(lev, head, depth, boundary)
    && (|order| < MAX_REACHABLE ==> Closed(p, seeds, order, lev, head))
  }

  /** The callees called at the first `n` offsets of a symbol are queued. */
  ghost predicate CallsQueued(p: Program, u: nat, n: nat, order: seq<nat>, lev: seq<nat>, m: nat)
    requires u < |p.syms|
  {
    forall j :: 0 <= j < n && CallAt(p, u, j).Some? ==> Queued(order, lev, CallAt(p, u, j).value, m)
  }

  /** A queued symbol at the level just below `m` may take one more entry. */
  lemma PushKeeps(p: Program, seeds: seq<nat>, order: seq<nat>, lev: seq<nat>, u: nat, v: nat, m: nat)
    requires Sound(p, seeds, order, lev) && Within(p, seeds, m, u) && Edge(p, u, v) && v < |p.syms|
    ensures Sound(p, seeds, order + [v], lev + [m + 1])
    ensures Queued(order + [v], lev + [m + 1], v, m + 1)
  {
    hide Edge, Within;
    WithinStep(p, seeds, m, u, v);
    assert (order + [v])[|order|] == v && (lev + [m + 1])[|order|] == m + 1;
  }

  /** Queues one callee and keeps what the scan knows. */
  method QueueCallee(p: Program, w: Worklist, u: nat, j: nat, v: nat, ghost seeds: seq<nat>, ghost m: nat)
    requires w.Valid() && w.visited.Length == |p.syms| && u < |p.syms| && CallAt(p, u, j) == Some(v)
    requires Sound(p, seeds, w.queue[..w.tail], w.level) && Within(p, seeds, m, u)
    requires forall i :: 0 <= i < |w.level| ==> w.level[i] <= m + 1
    modifies w, w.queue, w.visited
    ensures w.Valid() && Sound(p, seeds, w.queue[..w.tail], w.level)
    ensures old(w.queue[..w.tail]) <= w.queue[..w.tail] && old(w.level) <= w.level
    ensures forall i :: |old(w.level)| <= i < |w.level| ==> w.level[i] == m + 1
    ensures w.tail < MAX_REACHABLE ==> Queued(w.queue[..w.tail], w.level, v, m + 1)
  {
    hide CallAt, Within, Distinct;
    ghost var order, lev := w.queue[..w.tail], w.level;
    assert Edge(p, u, v);
    PushKeeps(p, seeds, order, lev, u, v, m);
    w.Push(v, m + 1);
    if v in order {
      var i :| 0 <= i < |order| && order[i] == v;
      assert w.queue[..w.tail][i] == v;
    }
  }

  /** Scans the body of a symbol for calls and jumps. */
  method ScanCalls(p: Program, w: Worklist, u: nat, ghost seeds: seq<nat>, ghost m: nat)
    requires w.Valid() && w.visited.Length == |p.syms| && u < |p.syms|
    requires Sound(p, seeds, w.queue[..w.tail], w.level) && Within(p, seeds, m, u)
    requires forall i :: 0 <= i < |w.level| ==> w.level[i] <= m + 1
    modifies w, w.queue, w.visited
    ensures w.Valid() && Sound(p, seeds, w.queue[..w.tail], w.level)
    ensures old(w.queue[..w.tail]) <= w.queue[..w.tail] && old(w.level) <= w.level
    ensures forall i :: |old(w.level)| <= i < |w.level| ==> w.level[i] == m + 1
    ensures w.tail < MAX_REACHABLE ==> Scanned(p, w.queue[..w.tail], w.level, u, m)
  {
    hide Within, Distinct, Sound, Resolve, Displacement, Queued;
    var body := Body(p, u);
    for j := 0 to |body|
      invariant w.Valid() && Sound(p, seeds, w.queue[..w.tail], w.level)
      invariant old(w.queue[..w.tail]) <= w.queue[..w.tail] && old(w.level) <= w.level
      invariant forall i :: |old(w.level)| <= i < |w.level| ==> w.level[i] == m + 1
      invariant w.tail < MAX_REACHABLE ==> CallsQueued(p, u, j, w.queue[..w.tail], w.level, m + 1)
    {
      ghost var order, lev := w.queue[..w.tail], w.level;
      if j + 4 < |body| && (body[j] == 0xE8 || body[j] == 0xE9) {
        var target := (p.syms[u].addr + j + 5 + Displacement(body[j + 1..j + 5])) % WORD64;
        var callee := FindSymAtAddr(p.syms, target);
        assert callee == CallAt(p, u, j);
        if callee.Some? {
          QueueCallee(p, w, u, j, callee.value, seeds, m);
        }
      } else {
        assert CallAt(p, u, j) == None;
      }
      if w.tail < MAX_REACHABLE {
        CallsQueuedNext(p, u, j, order, lev, w.queue[..w.tail], w.level, m + 1);
      }
    }
  }

  lemma CallsQueuedNext(p: Program, u: nat, j: nat, order: seq<nat>, lev: seq<nat>,
                        order': seq<nat>, lev': seq<nat>, m: nat)
    requires u < |p.syms| && CallsQueued(p, u, j, order, lev, m)
    requires order <= order' && lev <= lev' && |order'| == |lev'|
    requires CallAt(p, u, j).Some? ==> Queued(order', lev', CallAt(p, u, j).value, m)
    ensures CallsQueued(p, u, j + 1, order', lev', m)
  {
    hide CallAt, Queued;
    forall i | 0 <= i < j + 1 && CallAt(p, u, i).Some? ensures Queued(order', lev', CallAt(p, u, i).value, m) {
      if i < j { QueuedMono(order, lev, order', lev', CallAt(p, u, i).value, m); }
    }
  }

  // -------------------------------------------------------------------------- seeds

  /** Names that the C library reaches in ways a scan for calls cannot follow. */
  const ESSENTIAL: seq<string> := [
    "__syscall_cancel_arch", "__syscall_cancel", "__internal_syscall_cancel", "__libc_do_syscall",
    "__GI___ioctl", "__ioctl", "ioctl", "__isatty", "isatty", "__isatty_nostatus", "__tcgetattr", "tcgetattr",
    "__GI___fstat64", "__fstat64", "__fxstat64", "fstat", "__fstat",
    "__GI___lseek64", "__lseek64", "lseek64", "lseek", "__brk", "__sbrk", "__mmap", "__munmap",
    "__sigaction", "__rt_sigaction", "__sigprocmask", "_exit", "__GI__exit", "__exit_funcs"]

  /** The first symbol of a name, searching from `i`. */
  function Named(syms: seq<Symbol>, name: string, i: nat): (r: Option<nat>)
    requires i <= |syms|
    ensures r.Some? ==> i <= r.value < |syms| && syms[r.value].name == name
    ensures forall k :: i <= k < (if r.Some? then r.value else |syms|) ==> syms[k].name != name
    decreases |syms| - i
  {
    if i == |syms| then None else if syms[i].name == name then Some(i) else Named(syms, name, i + 1)
  }

  method FindSymByName(syms: seq<Symbol>, name: string) returns (r: Option<nat>)
    ensures r == Named(syms, name, 0)
  {
    for i := 0 to |syms|
      invariant Named(syms, name, 0) == Named(syms, name, i)
    {
      if syms[i].name == name {
        return Some(i);
      }
    }
    r := None;
  }

  function Stripped(s: string): string {
    if s != [] && s[0] == '_' then Stripped(s[1..]) else s
  }

  /** A symbol that goes by a variant of an imported name. */
  predicate IsVariant(name: string, imported: string) {
    var base := Stripped(imported);
    |base| >= 2 && Contains(name, base) && ("__" <= name || base <= name)
  }

  predicate AllUnderscores(s: string) {
    forall i :: 0 <= i < |s| ==> s[i] == '_'
  }

  lemma {:induction false} StrippedIs(under: string, base: string)
    requires AllUnderscores(under) && (base == "" || base[0] != '_')
    ensures Stripped(under + base) == base
  {
    if under == "" {
      assert under + base == base;
    } else {
      assert (under + base)[1..] == under[1..] + base;
      StrippedIs(under[1..], base);
    }
  }

  /** A name is a variant of an imported one, underscores and a base name of two
      characters or more, if and only if it holds the base name and starts with
      it or with two underscores.
    */
  lemma VariantIff(name: string, under: string, base: string)
    requires AllUnderscores(under) && (base == "" || base[0] != '_')
    ensures IsVariant(name, under + base) <==>
      |base| >= 2 && Occurs(name, base) && (base <= name || (|name| >= 2 && name[0] == '_' && name[1] == '_'))
  {
    hide Contains, Occurs, Stripped;
    StrippedIs(under, base);
    ContainsIff(name, base);
  }

  /** A symbol the search starts from: one of an imported or essential name, or
      a variant of an imported one.
    */
  ghost predicate IsSeed(p: Program, imports: seq<string>, v: nat) {
    && v < |p.syms|
    && (|| (exists i :: 0 <= i < |imports| && Named(p.syms, imports[i], 0) == Some(v))
        || (exists i :: 0 <= i < |ESSENTIAL| && Named(p.syms, ESSENTIAL[i], 0) == Some(v))
        || (exists i :: 0 <= i < |imports| && IsVariant(p.syms[v].name, imports[i])))
  }

  /** The seeds, as the symbols in their order. */
  ghost function Seeds(p: Program, imports: seq<string>, n: nat): seq<nat>
    requires n <= |p.syms|
  {
    if n == 0 then [] else Seeds(p, imports, n - 1) + if IsSeed(p, imports, n - 1) then [n - 1] else []
  }

  /** While seeds are queued: all at level 0, and those done are in the queue
      unless it is full.
    */
  ghost predicate Seeding(p: Program, seeds: seq<nat>, order: seq<nat>, lev: seq<nat>, done: set<nat>) {
    && Sound(p, seeds, order, lev)
    && (forall k :: 0 <= k < |lev| ==> lev[k] == 0)
    && (|order| < MAX_REACHABLE ==> forall v :: v in done ==> v in order)
  }

  method PushSeed(p: Program, w: Worklist, v: nat, ghost seeds: seq<nat>, ghost done: set<nat>)
    requires w.Valid() && w.visited.Length == |p.syms| && v < |p.syms| && v in seeds
    requires Seeding(p, seeds, w.queue[..w.tail], w.level, done)
    modifies w, w.queue, w.visited
    ensures w.Valid() && Seeding(p, seeds, w.queue[..w.tail], w.level, done + {v})
  {
    hide Distinct;
    assert Within(p, seeds, 0, v);
    w.Push(v, 0);
  }

  /** The symbols that the names stand for. */
  ghost function NamedIn(p: Program, names: seq<string>, n: nat): (r: set<nat>)
    requires n <= |names|
    ensures forall v: nat :: v in r <==> exists i :: 0 <= i < n && Named(p.syms, names[i], 0) == Some(v)
  {
    if n == 0 then {}
    else
      var v := Named(p.syms, names[n - 1], 0);
      NamedIn(p, names, n - 1) + if v.Some? then {v.value} else {}
  }

  method SeedNamed(p: Program, w: Worklist, names: seq<string>, ghost seeds: seq<nat>, ghost done: set<nat>)
    requires w.Valid() && w.visited.Length == |p.syms|
    requires forall v :: v in NamedIn(p, names, |names|) ==> v in seeds
    requires Seeding(p, seeds, w.queue[..w.tail], w.level, done)
    modifies w, w.queue, w.visited
    ensures w.Valid() && Seeding(p, seeds, w.queue[..w.tail], w.level, done + NamedIn(p, names, |names|))
  {
    hide Seeding, Named, NamedIn, Distinct;
    NamedNext(p, names, 0, done);
    for i := 0 to |names|
      invariant w.Valid() && Seeding(p, seeds, w.queue[..w.tail], w.level, done + NamedIn(p, names, i))
    {
      var v := FindSymByName(p.syms, names[i]);
      NamedNext(p, names, i, done);
      if v.Some? {
        PushSeed(p, w, v.value, seeds, done + NamedIn(p, names, i));
      }
    }
  }

  lemma NamedNext(p: Program, names: seq<string>, i: nat, done: set<nat>)
    requires i <= |names|
    ensures i == 0 ==> done + NamedIn(p, names, i) == done
    ensures i < |names| ==>
      var v := Named(p.syms, names[i], 0);
      if v.Some? then
        && done + NamedIn(p, names, i + 1) == done + NamedIn(p, names, i) + {v.value}
        && v.value in NamedIn(p, names, |names|)
      else done + NamedIn(p, names, i + 1) == done + NamedIn(p, names, i)
  {
    hide Named;
  }

  /** The symbols below `n` that are variants of an imported name. */
  ghost function VariantsOf(p: Program, imported: string, n: nat): (r: set<nat>)
    requires n <= |p.syms|
    ensures forall v: nat :: v in r <==> v < n && IsVariant(p.syms[v].name, imported)
  {
    if n == 0 then {}
    else VariantsOf(p, imported, n - 1) + if IsVariant(p.syms[n - 1].name, imported) then {n - 1} else {}
  }

  method SeedVariants(p: Program, w: Worklist, imported: string, ghost seeds: seq<nat>, ghost done: set<nat>)
    requires w.Valid() && w.visited.Length == |p.syms|
    requires forall v :: v in VariantsOf(p, imported, |p.syms|) ==> v in seeds
    requires Seeding(p, seeds, w.queue[..w.tail], w.level, done)
    modifies w, w.queue, w.visited
    ensures w.Valid() && Seeding(p, seeds, w.queue[..w.tail], w.level, done + VariantsOf(p, imported, |p.syms|))
  {
    hide Seeding, IsVariant;
    assert done + VariantsOf(p, imported, 0) == done;
    for v := 0 to |p.syms|
      invariant w.Valid() && Seeding(p, seeds, w.queue[..w.tail], w.level, done + VariantsOf(p, imported, v))
    {
      ghost var before := done + VariantsOf(p, imported, v);
      if IsVariant(p.syms[v].name, imported) {
        PushSeed(p, w, v, seeds, before);
        assert before + {v} == done + VariantsOf(p, imported, v + 1);
      } else {
        assert before == done + VariantsOf(p, imported, v + 1);
      }
    }
  }

  /** Queues the seeds, all at level 0: the imported names, the essential ones,
      and the variants of the imported ones.
    */
  method SeedQueue(p: Program, w: Worklist, imports: seq<string>)
    requires w.Valid() && w.tail == 0 && w.visited.Length == |p.syms|
    modifies w, w.queue, w.visited
    ensures w.Valid()
    ensures SearchInv(p, Seeds(p, imports, |p.syms|), w.queue[..w.tail], w.level, 0, 0, w.tail)
  {
    hide Distinct, Seeding, SearchInv, DoneSeeds, Seeds, NamedIn, VariantsOf;
    ghost var seeds := Seeds(p, imports, |p.syms|);
    NothingSeeded(p, seeds);
    NamedAreSeeds(p, imports);
    assert w.queue[..w.tail] == [] && w.level == [];
    SeedNamed(p, w, imports, seeds, {});
    SeedNamed(p, w, ESSENTIAL, seeds, {} + NamedIn(p, imports, |imports|));
    ghost var done := {} + NamedIn(p, imports, |imports|) + NamedIn(p, ESSENTIAL, |ESSENTIAL|);
    AllNamed(p, imports, done);
    for i := 0 to |imports|
      invariant w.Valid() && Seeding(p, seeds, w.queue[..w.tail], w.level, done)
      invariant DoneSeeds(p, imports, done, i)
    {
      VariantsAreSeeds(p, imports, i);
      SeedVariants(p, w, imports[i], seeds, done);
      MoreVariants(p, imports, done, i);
      done := done + VariantsOf(p, imports[i], |p.syms|);
    }
    AllDone(p, imports, done);
    SeededInv(p, seeds, w.queue[..w.tail], w.level, done);
  }

  /** The named seeds and the variants of the first `n` imports are done. */
  ghost predicate DoneSeeds(p: Program, imports: seq<string>, done: set<nat>, n: nat)
    requires n <= |imports|
  {
    && NamedIn(p, imports, |imports|) <= done && NamedIn(p, ESSENTIAL, |ESSENTIAL|) <= done
    && forall k :: 0 <= k < n ==> VariantsOf(p, imports[k], |p.syms|) <= done
  }

  lemma NamedAreSeeds(p: Program, imports: seq<string>)
    ensures forall v :: v in NamedIn(p, imports, |imports|) ==> v in Seeds(p, imports, |p.syms|)
    ensures forall v :: v in NamedIn(p, ESSENTIAL, |ESSENTIAL|) ==> v in Seeds(p, imports, |p.syms|)
  {
    hide NamedIn, Seeds, Named, IsVariant;
    SeedsAre(p, imports);
  }

  lemma VariantsAreSeeds(p: Program, imports: seq<string>, i: nat)
    requires i < |imports|
    ensures forall v :: v in VariantsOf(p, imports[i], |p.syms|) ==> v in Seeds(p, imports, |p.syms|)
  {
    hide NamedIn, Seeds, Named, IsVariant, VariantsOf;
    SeedsAre(p, imports);
  }

  lemma AllNamed(p: Program, imports: seq<string>, done: set<nat>)
    requires NamedIn(p, imports, |imports|) <= done && NamedIn(p, ESSENTIAL, |ESSENTIAL|) <= done
    ensures DoneSeeds(p, imports, done, 0)
  {
    hide NamedIn, VariantsOf;
  }

  lemma MoreVariants(p: Program, imports: seq<string>, done: set<nat>, i: nat)
    requires i < |imports| && DoneSeeds(p, imports, done, i)
    ensures DoneSeeds(p, imports, done + VariantsOf(p, imports[i], |p.syms|), i + 1)
  {
    hide NamedIn, VariantsOf;
  }

  lemma AllDone(p: Program, imports: seq<string>, done: set<nat>)
    requires DoneSeeds(p, imports, done, |imports|)
    ensures forall v :: v in Seeds(p, imports, |p.syms|) ==> v in done
  {
    hide NamedIn, VariantsOf, Seeds, Named, IsVariant;
    SeedsAre(p, imports);
    forall v | v in Seeds(p, imports, |p.syms|) ensures v in done {
      assert IsSeed(p, imports, v);
      if i :| 0 <= i < |imports| && IsVariant(p.syms[v].name, imports[i]) {
        assert v in VariantsOf(p, imports[i], |p.syms|);
      }
    }
  }

  lemma {:induction false} SeedsBelow(p: Program, imports: seq<string>, n: nat)
    requires n <= |p.syms|
    ensures forall v: nat :: v in Seeds(p, imports, n) <==> v < n && IsSeed(p, imports, v)
  {
    hide IsSeed;
    if n > 0 {
      SeedsBelow(p, imports, n - 1);
    }
  }

  lemma SeedsAre(p: Program, imports: seq<string>)
    ensures forall v: nat :: v in Seeds(p, imports, |p.syms|) <==> IsSeed(p, imports, v)
  {
    hide Seeds;
    SeedsBelow(p, imports, |p.syms|);
  }

  lemma NothingSeeded(p: Program, seeds: seq<nat>)
    ensures Seeding(p, seeds, [], [], {})
  {
  }

  lemma SeededInv(p: Program, seeds: seq<nat>, order: seq<nat>, lev: seq<nat>, done: set<nat>)
    requires Seeding(p, seeds, order, lev, done) && forall v :: v in seeds ==> v in done
    ensures SearchInv(p, seeds, order, lev, 0, 0, |order|)
  {
    if |order| < MAX_REACHABLE {
      forall v | v in seeds ensures Queued(order, lev, v, 0) {
        var k :| 0 <= k < |order| && order[k] == v;
      }
    }
  }

  /** Breadth-first search from the seeds. Every symbol found is at most 25
      call edges from a seed and found once; unless the queue fills up, every
      symbol within 24 call edges is found.
    */
  method Reachable(p: Program, imports: seq<string>) returns (found: seq<nat>, ghost seeds: seq<nat>)
    ensures forall v: nat :: v in seeds <==> IsSeed(p, imports, v)
    ensures |found| <= 4096 && Distinct(found)
    ensures forall i :: 0 <= i < |found| ==> found[i] < |p.syms| && Within(p, seeds, 25, found[i])
    ensures |found| < 4096 ==> forall v: nat :: Within(p, seeds, 24, v) ==> v in found
  {
    hide Distinct, Within, SearchInv, Seeds, IsSeed;
    var w := new Worklist(|p.syms|);
    seeds := Seeds(p, imports, |p.syms|);
    SeedsAre(p, imports);
    SeedQueue(p, w, imports);
    var head, boundary, depth := 0, w.tail, 0;
    while head < w.tail && depth < DEPTH_LIMIT
      invariant w.Valid() && w.visited.Length == |p.syms| && fresh(w) && fresh(w.queue) && fresh(w.visited)
      invariant head <= w.tail && depth <= DEPTH_LIMIT
      invariant SearchInv(p, seeds, w.queue[..w.tail], w.level, head, depth, boundary)
      decreases MAX_REACHABLE - head
    {
      var u := w.queue[head];
      ghost var order, lev := w.queue[..w.tail], w.level;
      ghost var depth0, boundary0 := depth, boundary;
      head := head + 1;
      if head > boundary {
        depth := depth + 1;
        boundary := w.tail;
      }
      PopStep(p, seeds, order, lev, head - 1, depth0, boundary0);
      ScanCalls(p, w, u, seeds, depth);
      ScanStep(p, seeds, order, lev, w.queue[..w.tail], w.level, head, depth, boundary);
    }
    found := w.queue[..w.tail];
    SearchResult(p, seeds, found, w.level, head, depth, boundary);
  }

  /** Taking the next entry off the queue opens its level if it is the first of it. */
  lemma PopStep(p: Program, seeds: seq<nat>, order: seq<nat>, lev: seq<nat>, head: nat, depth: nat, boundary: nat)
    requires SearchInv(p, seeds, order, lev, head, depth, boundary) && head < |order|
    ensures
      var depth' := if head + 1 > boundary then depth + 1 else depth;
      var boundary' := if head + 1 > boundary then |order| else boundary;
      && Sound(p, seeds, order, lev)
      && Shape(lev, head + 1, depth', boundary')
      && lev[head] == depth'
      && order[head] < |p.syms| && Within(p, seeds, depth', order[head])
      && (forall i :: 0 <= i < |lev| ==> lev[i] <= depth' + 1)
      && (|order| < MAX_REACHABLE ==> Closed(p, seeds, order, lev, head))
  {
    hide Within, Closed;
  }

  /** Scanning the entry just taken restores the invariant. */
  lemma ScanStep(p: Program, seeds: seq<nat>, order: seq<nat>, lev: seq<nat>, order': seq<nat>, lev': seq<nat>,
                 head: nat, depth: nat, boundary: nat)
    requires 0 < head <= |order| == |lev| && order <= order' && lev <= lev'
    requires Sound(p, seeds, order', lev') && Shape(lev, head, depth, boundary) && lev[head - 1] == depth
    requires forall i :: |lev| <= i < |lev'| ==> lev'[i] == depth + 1
    requires |order| < MAX_REACHABLE ==> Closed(p, seeds, order, lev, head - 1)
    requires |order'| < MAX_REACHABLE ==> Scanned(p, order', lev', order[head - 1], depth)
    ensures SearchInv(p, seeds, order', lev', head, depth, boundary)
  {
    hide Within, Scanned, Queued;
    if |order'| < MAX_REACHABLE {
      ClosedMono(p, seeds, order, lev, order', lev', head - 1);
      assert order'[head - 1] == order[head - 1] && lev'[head - 1] == depth;
    }
  }

  lemma SearchResult(p: Program, seeds: seq<nat>, order: seq<nat>, lev: seq<nat>, head: nat, depth: nat, boundary: nat)
    requires SearchInv(p, seeds, order, lev, head, depth, boundary)
    requires depth <= DEPTH_LIMIT && (head >= |order| || depth >= DEPTH_LIMIT)
    ensures forall i :: 0 <= i < |order| ==> order[i] < |p.syms| && Within(p, seeds, DEPTH_LIMIT + 1, order[i])
    ensures |order| < MAX_REACHABLE ==> forall v: nat :: Within(p, seeds, DEPTH_LIMIT, v) ==> v in order
  {
    hide Within, Closed;
    forall i | 0 <= i < |order| ensures order[i] < |p.syms| && Within(p, seeds, DEPTH_LIMIT + 1, order[i]) {
      WithinMono(p, seeds, lev[i], DEPTH_LIMIT + 1, order[i]);
    }
    if |order| < MAX_REACHABLE {
      forall v: nat | Within(p, seeds, DEPTH_LIMIT, v) ensures v in order {
        StoppedComplete(p, seeds, order, lev, head, depth, boundary, DEPTH_LIMIT, v);
      }
    }
  }

  // -------------------------------------------------------------- system call sites

  /** The two bytes of a syscall instruction. */
  predicate IsSite(data: seq<byte>, k: nat) {
    k + 1 < |data| && data[k] == 0x0F && data[k + 1] == 0x05
  }

  /** A syscall instruction inside a symbol of `found`. */
  ghost predicate SymbolSite(p: Program, found: seq<nat>, site: nat) {
    exists i, j: nat :: 0 <= i < |found| && found[i] < |p.syms| && SiteAt(p, found[i], j, site)
  }

  predicate SiteAt(p: Program, u: nat, j: nat, site: nat)
    requires u < |p.syms|
  {
    IsSite(Body(p, u), j) && site == p.syms[u].addr + j
  }

  /** A syscall instruction anywhere in the executable sections. */
  ghost predicate TextSite(secs: seq<Section>, site: nat) {
    exists i, k: nat :: 0 <= i < |secs| && IsSite(secs[i].data, k) && site == secs[i].vaddr + k
  }

  /** The bytes of a symbol are a piece of a section. */
  lemma {:induction false} BytesInSection(secs: seq<Section>, addr: u64, len: nat) returns (i: nat, off: nat)
    requires Placed(secs) && BytesAt(secs, addr, len) != []
    ensures i < |secs| && addr == secs[i].vaddr + off
    ensures off + |BytesAt(secs, addr, len)| <= |secs[i].data|
    ensures BytesAt(secs, addr, len) == secs[i].data[off..off + |BytesAt(secs, addr, len)|]
  {
    var s := secs[0];
    assert s.vaddr + |s.data| < WORD64;
    if s.vaddr <= addr < s.vaddr + |s.data| {
      i, off := 0, addr - s.vaddr;
      var r := BytesAt(secs, addr, len);
      assert r == s.data[off..off + |r|];
    } else {
      assert BytesAt(secs, addr, len) == BytesAt(secs[1..], addr, len);
      assert forall k :: 0 <= k < |secs| - 1 ==> secs[1..][k] == secs[k + 1];
      i, off := BytesInSection(secs[1..], addr, len);
      i := i + 1;
    }
  }

  /** Every site in a symbol is a site of the text: filtering by the call graph
      never allows more than allowing the whole library.
    */
  lemma SymbolSiteInText(p: Program, found: seq<nat>, site: nat)
    requires Placed(p.secs) && SymbolSite(p, found, site)
    ensures TextSite(p.secs, site)
  {
    var f, j: nat :| 0 <= f < |found| && found[f] < |p.syms| && SiteAt(p, found[f], j, site);
    var u := found[f];
    var i, off := BytesInSection(p.secs, p.syms[u].addr, p.syms[u].size);
    assert IsSite(p.secs[i].data, off + j);
  }

  ghost predicate InSymbol(p: Program, u: nat, site: nat) {
    u < |p.syms| && exists j: nat :: SiteAt(p, u, j, site)
  }

  /** Collects the sites of one symbol, up to the output's capacity. */
  method SymbolSites(p: Program, u: nat, sites: seq<nat>, maxSites: nat) returns (r: seq<nat>)
    requires u < |p.syms| && |sites| <= maxSites
    ensures sites <= r && |r| <= maxSites
    ensures forall k :: |sites| <= k < |r| ==> InSymbol(p, u, r[k])
    ensures |r| < maxSites ==> forall j: nat :: IsSite(Body(p, u), j) ==> p.syms[u].addr + j in r
  {
    hide Body;
    r := sites;
    var body := Body(p, u);
    var j := 0;
    while j + 1 < |body| && |r| < maxSites
      invariant sites <= r && |r| <= maxSites
      invariant forall k :: |sites| <= k < |r| ==> InSymbol(p, u, r[k])
      invariant forall i: nat :: i < j && IsSite(body, i) ==> p.syms[u].addr + i in r
    {
      if body[j] == 0x0F && body[j + 1] == 0x05 {
        ghost var before := r;
        r := r + [p.syms[u].addr + j];
        assert SiteAt(p, u, j, p.syms[u].addr + j) && r[|before|] == p.syms[u].addr + j;
        assert forall x :: x in before ==> x in r;
      }
      j := j + 1;
    }
  }

  /** Collects the sites of all symbols found. Every reported site is a syscall
      instruction of a found symbol and of the text; below capacity none is
      missing.
    */
  method CollectSites(p: Program, found: seq<nat>, maxSites: nat) returns (sites: seq<nat>)
    requires forall i :: 0 <= i < |found| ==> found[i] < |p.syms|
    ensures |sites| <= maxSites
    ensures forall k :: 0 <= k < |sites| ==> SymbolSite(p, found, sites[k])
    ensures Placed(p.secs) ==> forall k :: 0 <= k < |sites| ==> TextSite(p.secs, sites[k])
    ensures |sites| < maxSites ==> forall site :: SymbolSite(p, found, site) ==> site in sites
  {
    hide Body, Placed, TextSite;
    sites := [];
    var i := 0;
    while i < |found| && |sites| < maxSites
      invariant i <= |found| && |sites| <= maxSites
      invariant forall k :: 0 <= k < |sites| ==> SymbolSite(p, found, sites[k])
      invariant |sites| < maxSites ==> forall f, j: nat :: 0 <= f < i && IsSite(Body(p, found[f]), j) ==>
        p.syms[found[f]].addr + j in sites
    {
      ghost var before := sites;
      sites := SymbolSites(p, found[i], sites, maxSites);
      forall k | |before| <= k < |sites| ensures SymbolSite(p, found, sites[k]) {
        var j: nat :| SiteAt(p, found[i], j, sites[k]);
      }
      i := i + 1;
    }
    if Placed(p.secs) {
      forall k | 0 <= k < |sites| ensures TextSite(p.secs, sites[k]) {
        SymbolSiteInText(p, found, sites[k]);
      }
    }
  }
}

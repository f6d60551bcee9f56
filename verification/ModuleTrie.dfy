/** The map from code addresses to modules: the loader covers each module with
    one-megabyte prefixes in a longest-prefix-match trie, and the kernel looks
    full addresses up in it. Keys are byte-swapped so that the trie, which
    compares bytes in memory order, sees the high bits first.
  */
module ModuleTrie {
  import opened Bits
  import opened Common

  const BLOCK_SIZE: nat := 0x10_0000
  const BLOCK_PREFIX: nat := 44
  const TRIE_CAPACITY: nat := 512

  datatype Value = Value(moduleId: u32, base: u64)

  /** A trie key: how many leading bits count, and the key's bytes in memory. */
  datatype Key = Key(prefixlen: nat, bytes: seq<byte>)

  // ------------------------------------------------------------- byte order and bits

  /** Byte `i` of a word in little-endian memory. */
  function MemoryByte(x: u64, i: nat): byte {
    x / Pow2(8 * i) % 256
  }

  /** The memory of a byte-swapped word. */
  function KeyBytes(addr: u64): (r: seq<byte>)
    ensures |r| == 8
  {
    seq(8, i requires 0 <= i < 8 => MemoryByte(addr, 7 - i))
  }

  /** Bit `k` of a key, most significant bit of the first byte first. */
  function KeyBit(bytes: seq<byte>, k: nat): nat
    requires |bytes| == 8 && k < 64
  {
    bytes[k / 8] / Pow2(7 - k % 8) % 2
  }

  /** Two keys agree on their first `n` bits. */
  ghost predicate PrefixMatch(n: nat, a: seq<byte>, b: seq<byte>)
    requires |a| == |b| == 8 && n <= 64
  {
    forall k :: 0 <= k < n ==> KeyBit(a, k) == KeyBit(b, k)
  }

  /** A bit of a byte is a bit of the word it was cut from. */
  lemma BitOfByte(y: nat, m: nat)
    requires m <= 7
    ensures y % 256 / Pow2(m) % 2 == y / Pow2(m) % 2
  {
    Pow2Add(m, 7 - m);
    assert Pow2(7) == 128;
    hide Pow2;
    BitBelow(y, Pow2(m), Pow2(7 - m));
  }

  lemma BitBelow(y: nat, p: nat, q: nat)
    requires p > 0 && q > 0 && p * q == 128
    ensures y % 256 / p % 2 == y / p % 2
  {
    var hi := y / 256;
    assert p * (2 * (q * hi)) == 2 * (p * q) * hi == 256 * hi;
    ModShift(y % 256, p, 2 * (q * hi));
    ModShift(y % 256 / p, 2, q * hi);
  }

  lemma KeyByteIs(addr: u64, q: nat)
    requires q < 8
    ensures KeyBytes(addr)[q] == addr / Pow2(8 * (7 - q)) % 256
  {
    hide Pow2;
  }

  /** Bit `k` of the byte-swapped key is bit `63 - k` of the address. */
  lemma KeyBitIs(addr: u64, k: nat)
    requires k < 64
    ensures KeyBit(KeyBytes(addr), k) == addr / Pow2(63 - k) % 2
  {
    hide Pow2, KeyBytes;
    KeyByteIs(addr, k / 8);
    CutBit(addr, 8 * (7 - k / 8), 7 - k % 8);
    assert 8 * (7 - k / 8) + (7 - k % 8) == 63 - k;
  }

  lemma CutBit(addr: u64, m: nat, n: nat)
    requires n <= 7
    ensures addr / Pow2(m) % 256 / Pow2(n) % 2 == addr / Pow2(m + n) % 2
  {
    hide Pow2;
    BitOfByte(addr / Pow2(m), n);
    DivPow(addr, m, n);
  }

  lemma DivPow(x: nat, m: nat, n: nat)
    ensures x / Pow2(m) / Pow2(n) == x / Pow2(m + n)
  {
    hide Pow2;
    DivDiv(x, Pow2(m), Pow2(n));
    Pow2Add(m, n);
  }

  /** Matching the first `n` key bits is agreeing above the last `64 - n` bits. */
  lemma {:induction false} PrefixIsQuotient(n: nat, a: u64, b: u64)
    requires n <= 64
    ensures PrefixMatch(n, KeyBytes(a), KeyBytes(b)) <==> a / Pow2(64 - n) == b / Pow2(64 - n)
  {
    hide KeyBytes, KeyBit, Pow2, PrefixMatch;
    if n == 0 {
      NoPrefix(a, b);
    } else {
      PrefixIsQuotient(n - 1, a, b);
      KeyBitIs(a, n - 1);
      KeyBitIs(b, n - 1);
      Pow2Double(65 - n);
      PrefixUnfold(n, KeyBytes(a), KeyBytes(b));
      QuotientStep(a, b, Pow2(64 - n));
    }
  }

  lemma NoPrefix(a: u64, b: u64)
    ensures PrefixMatch(0, KeyBytes(a), KeyBytes(b)) && a / Pow2(64) == b / Pow2(64) == 0
  {
    Pow2Values();
    hide Pow2;
    DivModUnique(a, WORD64, 0, a);
    DivModUnique(b, WORD64, 0, b);
  }

  /** Agreeing on one more bit. */
  lemma QuotientStep(a: nat, b: nat, p: nat)
    requires p > 0
    ensures a / p == b / p <==> a / (2 * p) == b / (2 * p) && a / p % 2 == b / p % 2
  {
    DivDiv(a, p, 2);
    DivDiv(b, p, 2);
  }

  lemma PrefixUnfold(n: nat, a: seq<byte>, b: seq<byte>)
    requires |a| == |b| == 8 && 0 < n <= 64
    ensures PrefixMatch(n, a, b) <==> PrefixMatch(n - 1, a, b) && KeyBit(a, n - 1) == KeyBit(b, n - 1)
  {
    hide KeyBit;
  }

  // ------------------------------------------------------------------------ the trie

  type Trie = map<Key, Value>

  ghost predicate Matches(k: Key, addr: u64) {
    |k.bytes| == 8 && k.prefixlen <= 64 && PrefixMatch(k.prefixlen, k.bytes, KeyBytes(addr))
  }

  /** `r` is what a longest-prefix lookup of an address may return. */
  ghost predicate IsLookup(t: Trie, addr: u64, r: Option<Value>) {
    match r
    case None => forall k :: k in t ==> !Matches(k, addr)
    case Some(v) => exists k :: k in t && t[k] == v && Matches(k, addr)
                                && forall j :: j in t && Matches(j, addr) ==> j.prefixlen <= k.prefixlen
  }

  function BlockKey(addr: u64): Key {
    Key(BLOCK_PREFIX, KeyBytes(addr))
  }

  /** The trie holds only block keys of block-aligned addresses. */
  ghost predicate BlockTrie(t: Trie) {
    forall k :: k in t ==> exists a: u64 :: a % BLOCK_SIZE == 0 && k == BlockKey(a)
  }

  function BlockOf(addr: u64): u64 {
    addr - addr % BLOCK_SIZE
  }

  lemma BlockMatch(a: u64, addr: u64)
    requires a % BLOCK_SIZE == 0
    ensures Matches(BlockKey(a), addr) <==> a == BlockOf(addr)
  {
    hide KeyBytes, PrefixMatch;
    PrefixIsQuotient(BLOCK_PREFIX, a, addr);
    Pow2Values();
  }

  /** In a trie of block keys, a lookup returns the entry of the address's block. */
  lemma LookupIsBlock(t: Trie, addr: u64, r: Option<Value>)
    requires BlockTrie(t) && IsLookup(t, addr, r)
    ensures
      var k := BlockKey(BlockOf(addr));
      r == if k in t then Some(t[k]) else None
  {
    hide KeyBytes, Matches;
    var b := BlockOf(addr);
    BlockMatch(b, addr);
    forall k | k in t && Matches(k, addr) ensures k == BlockKey(b) {
      var a: u64 :| a % BLOCK_SIZE == 0 && k == BlockKey(a);
      BlockMatch(a, addr);
    }
  }

  /** Block keys tell blocks apart. */
  lemma BlockKeyInjective(a: u64, b: u64)
    requires a % BLOCK_SIZE == 0 && b % BLOCK_SIZE == 0 && BlockKey(a) == BlockKey(b)
    ensures a == b
  {
    hide KeyBytes, Matches;
    BlockMatch(a, b);
    BlockMatch(b, b);
  }

  /** The trie's entry for the block of an address. */
  function EntryFor(t: Trie, addr: u64): Option<Value> {
    var k := BlockKey(BlockOf(addr));
    if k in t then Some(t[k]) else None
  }

  /** The entry of the address's block is what a lookup returns. */
  lemma EntryIsLookup(t: Trie, addr: u64)
    requires BlockTrie(t)
    ensures IsLookup(t, addr, EntryFor(t, addr))
  {
    hide KeyBytes, Matches;
    var b := BlockOf(addr);
    BlockMatch(b, addr);
    forall k | k in t && Matches(k, addr) ensures k == BlockKey(b) {
      var a: u64 :| a % BLOCK_SIZE == 0 && k == BlockKey(a);
      BlockMatch(a, addr);
    }
  }

  lemma UpdateEntry(t: Trie, b: u64, v: Value, addr: u64)
    requires b % BLOCK_SIZE == 0
    ensures EntryFor(t[BlockKey(b) := v], addr) == if BlockOf(addr) == b then Some(v) else EntryFor(t, addr)
  {
    hide BlockKey;
    if BlockKey(BlockOf(addr)) == BlockKey(b) {
      BlockKeyInjective(BlockOf(addr), b);
    }
  }

  // --------------------------------------------------------------------- modules

  /** A module mapped at `low .. high`, under an identifier and the base its
      offsets count from: its own, or for the dynamic linker the C library's.
    */
  datatype Load = Load(low: u64, high: u64, id: u32, base: u64)

  /** The address lies in a block that the module covers. */
  predicate Covers(l: Load, addr: u64) {
    BlockOf(l.low) <= BlockOf(addr) < l.high
  }

  /** The last module of a sequence that covers an address, as a trie value. */
  function LastCovering(loads: seq<Load>, addr: u64): Option<Value> {
    if loads == [] then None
    else
      var l := loads[|loads| - 1];
      if Covers(l, addr) then Some(Value(l.id, l.base)) else LastCovering(loads[..|loads| - 1], addr)
  }

  class VmaMap {
    var trie: Trie
    /** The modules loaded so far, and whether the trie had room for all of them. */
    ghost var loads: seq<Load>
    ghost var complete: bool

    ghost predicate Valid()
      reads this
    {
      && BlockTrie(trie)
      && |trie| <= TRIE_CAPACITY
      && EntriesAre(trie, loads, complete)
    }

    constructor ()
      ensures Valid() && trie == map[] && loads == [] && complete
    {
      trie, loads, complete := map[], [], true;
    }

    /** A map update: a new key needs room. */
    method Update(b: u64, v: Value) returns (ok: bool)
      requires b % BLOCK_SIZE == 0 && BlockTrie(trie) && |trie| <= TRIE_CAPACITY
      modifies this`trie
      ensures BlockTrie(trie) && |trie| <= TRIE_CAPACITY && |trie| <= |old(trie)| + 1
      ensures ok <==> BlockKey(b) in old(trie) || |old(trie)| < TRIE_CAPACITY
      ensures BlockSet(trie, old(trie), b, if ok then Some(v) else None)
    {
      hide BlockKey, BlockOf;
      var k := BlockKey(b);
      ok := k in trie || |trie| < TRIE_CAPACITY;
      if ok {
        ghost var t := trie;
        trie := trie[k := v];
        forall addr: u64
          ensures EntryFor(trie, addr) == if BlockOf(addr) == b then Some(v) else EntryFor(t, addr)
        {
          UpdateEntry(t, b, v, addr);
        }
      }
    }

    /** Covers a module with one-megabyte prefixes; returns how many were set. */
    method PopulateModule(l: Load) returns (count: nat)
      requires Valid() && Coverable(l)
      modifies this
      ensures Valid() && loads == old(loads) + [l]
      ensures complete <==> old(complete) && count == BlockCount(l)
      ensures |old(trie)| + BlockCount(l) <= TRIE_CAPACITY ==> count == BlockCount(l)
    {
      hide BlockTrie, EntryFor, LastCovering, BlockKey, BlockCount, Filled, BlockSet, EntriesAre;
      FilledNothing(trie, BlockOf(l.low), Value(l.id, l.base));
      var first := BlockOf(l.low);
      var b, v := first, Value(l.id, l.base);
      count := 0;
      ghost var t, n := trie, 0;
      BlockCountIs(l, 0);
      while b < l.high
        invariant b == first + BLOCK_SIZE * n && b < WORD64 && n <= BlockCount(l)
        invariant loads == old(loads) && complete == old(complete)
        invariant (b < l.high <==> n < BlockCount(l)) && (n > 0 ==> b - BLOCK_SIZE < l.high)
        invariant BlockTrie(trie) && |trie| <= TRIE_CAPACITY && |trie| <= |t| + n
        invariant count <= n && (|t| + BlockCount(l) <= TRIE_CAPACITY ==> count == n)
        invariant Filled(trie, t, first, b, v, count == n)
      {
        ghost var before := trie;
        var ok := Update(b, v);
        FilledNext(before, trie, t, first, n, v, count == n, ok);
        if ok {
          count := count + 1;
        }
        b, n := b + BLOCK_SIZE, n + 1;
        BlockCountIs(l, n);
      }
      complete := complete && count == BlockCount(l);
      loads := loads + [l];
      EntriesNext(trie, t, old(loads), l, b, old(complete), count == n);
    }
  }

  /** Every entry is the last module covering its block; a complete trie has one
      for every block covered.
    */
  ghost predicate EntriesAre(t: Trie, loads: seq<Load>, complete: bool) {
    forall addr: u64 ::
      EntryFor(t, addr) == LastCovering(loads, addr) || (!complete && EntryFor(t, addr) == None)
  }

  /** One block has been given an entry or found without, and no other changed. */
  ghost predicate BlockSet(now: Trie, was: Trie, b: nat, r: Option<Value>) {
    forall addr: u64 :: EntryFor(now, addr) == if BlockOf(addr) == b then r else EntryFor(was, addr)
  }

  /** The blocks from `first` up to `b` have been set to a value in a trie,
      except, unless it was `full`y done, for some that have no entry.
    */
  ghost predicate Filled(now: Trie, was: Trie, first: nat, b: nat, v: Value, full: bool) {
    forall addr: u64 ::
      if first <= BlockOf(addr) < b then EntryFor(now, addr) == Some(v) || (!full && EntryFor(now, addr) == None)
      else EntryFor(now, addr) == EntryFor(was, addr)
  }

  lemma FilledNothing(t: Trie, first: nat, v: Value)
    ensures Filled(t, t, first, first, v, true)
  {
  }

  lemma FilledNext(now: Trie, next: Trie, was: Trie, first: nat, n: nat, v: Value, full: bool, ok: bool)
    requires first % BLOCK_SIZE == 0 && Filled(now, was, first, first + BLOCK_SIZE * n, v, full)
    requires BlockSet(next, now, first + BLOCK_SIZE * n, if ok then Some(v) else None)
    ensures Filled(next, was, first, first + BLOCK_SIZE * n + BLOCK_SIZE, v, full && ok)
  {
    hide EntryFor;
  }

  lemma EntriesNext(now: Trie, was: Trie, loads: seq<Load>, l: Load, b: nat, complete: bool, full: bool)
    requires EntriesAre(was, loads, complete) && Filled(now, was, BlockOf(l.low), b, Value(l.id, l.base), full)
    requires forall addr: u64 :: Covers(l, addr) <==> BlockOf(l.low) <= BlockOf(addr) < b
    ensures EntriesAre(now, loads + [l], complete && full)
  {
    hide EntryFor, LastCovering, Covers;
    forall addr: u64
      ensures EntryFor(now, addr) == LastCovering(loads + [l], addr) ||
              (!(complete && full) && EntryFor(now, addr) == None)
    {
      LastCoveringNext(loads, l, addr);
    }
  }

  /** The covering loop ends on a module. */
  predicate Coverable(l: Load) {
    l.high + BLOCK_SIZE <= WORD64
  }

  /** The block variable comes to the module's end if and only if the end leaves
      room for one more block.
    */
  lemma CoveringEndsIff(l: Load)
    ensures (exists n: nat :: Stepped(BlockOf(l.low), BLOCK_SIZE, n) >= l.high) <==> Coverable(l)
  {
    hide Stepped;
    StepLoopEndsIff(BlockOf(l.low), BLOCK_SIZE, l.high);
  }

  /** The number of blocks from a module's first to its end. */
  function BlockCount(l: Load): nat {
    var first := BlockOf(l.low);
    if l.high <= first then 0 else (l.high - first + BLOCK_SIZE - 1) / BLOCK_SIZE
  }

  lemma BlockCountIs(l: Load, n: nat)
    ensures BlockOf(l.low) + BLOCK_SIZE * n < l.high <==> n < BlockCount(l)
  {
  }

  lemma LastCoveringNext(loads: seq<Load>, l: Load, addr: u64)
    ensures LastCovering(loads + [l], addr) ==
      if Covers(l, addr) then Some(Value(l.id, l.base)) else LastCovering(loads, addr)
  {
    assert (loads + [l])[..|loads|] == loads;
  }

  // ---------------------------------------------------------------- address resolution

  /** After any sequence of loads, a lookup of an address returns the last
      module that covers it, and nothing if none does. A trie that ran full may
      return nothing, but never another module.
    */
  lemma LookupIsLastCovering(m: VmaMap, addr: u64, r: Option<Value>)
    requires m.Valid() && IsLookup(m.trie, addr, r)
    ensures r == LastCovering(m.loads, addr) || (!m.complete && r == None)
  {
    hide BlockKey, IsLookup, BlockTrie;
    LookupIsBlock(m.trie, addr, r);
    assert r == EntryFor(m.trie, addr);
  }

  lemma {:induction false} LastCoveringUnshadowed(loads: seq<Load>, i: nat, addr: u64)
    requires i < |loads| && Covers(loads[i], addr)
    requires forall j :: i < j < |loads| ==> !Covers(loads[j], addr)
    ensures LastCovering(loads, addr) == Some(Value(loads[i].id, loads[i].base))
  {
    hide Covers;
    if i < |loads| - 1 {
      LastCoveringUnshadowed(loads[..|loads| - 1], i, addr);
    }
  }

  /** The offset of an address in a module, as the kernel computes it. */
  function OffsetIn(base: u64, addr: u64): u64 {
    Sub64(addr, base)
  }

  /** A module whose blocks no later module reuses resolves every address it
      maps: the lookup gives its identifier and base, and base plus offset is
      the address, as 64-bit words. Only a trie that ran full may give nothing.
    */
  lemma ModuleResolves(m: VmaMap, i: nat, addr: u64, r: Option<Value>)
    requires m.Valid() && IsLookup(m.trie, addr, r)
    requires i < |m.loads| && m.loads[i].low <= addr < m.loads[i].high
    requires forall j :: i < j < |m.loads| ==> !Covers(m.loads[j], addr)
    ensures r == Some(Value(m.loads[i].id, m.loads[i].base)) || (!m.complete && r == None)
    ensures Wrap64(m.loads[i].base + OffsetIn(m.loads[i].base, addr)) == addr
  {
    hide IsLookup, BlockTrie, BlockKey;
    LookupIsLastCovering(m, addr, r);
    LastCoveringUnshadowed(m.loads, i, addr);
    BasePlusOffset(m.loads[i].base, addr);
  }

  lemma BasePlusOffset(base: u64, addr: u64)
    ensures Wrap64(base + OffsetIn(base, addr)) == addr
  {
    if addr >= base {
      ModShift(addr - base, WORD64, 1);
      DivModUnique(addr - base, WORD64, 0, addr - base);
      DivModUnique(addr, WORD64, 0, addr);
    } else {
      DivModUnique(addr + WORD64 - base, WORD64, 0, addr + WORD64 - base);
      DivModUnique(addr + WORD64, WORD64, 1, addr);
    }
  }
}

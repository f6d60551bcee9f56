/** The hash that guards a memory region: byte-wise xor and multiply modulo
    2^64, over a region read in page-sized chunks.
  */
module RegionHash {
  import opened Bits
  import opened Common
  import opened GuestMemory
  import opened PageWalk

  const HASH_INIT: nat := 1469598103934665603
  const HASH_PRIME: nat := 1099511628211
  const PRIME_INVERSE: nat := 0xce965057aff6957b

  function HashStep(h: u64, b: byte): u64 {
    Xor(h, b) * HASH_PRIME % WORD64
  }

  function Hash(h: u64, data: seq<byte>): u64 {
    if data == [] then h else HashStep(Hash(h, data[..|data| - 1]), data[|data| - 1])
  }

  /** The hash of a whole region. */
  function HashOf(data: seq<byte>): u64 {
    Hash(HASH_INIT, data)
  }

  // ---------------------------------------------------------- the step is invertible

  /** The prime has an inverse modulo 2^64. */
  lemma PrimeInverse(x: nat)
    requires x < WORD64
    ensures x * HASH_PRIME % WORD64 * PRIME_INVERSE % WORD64 == x
  {
    var k := HASH_PRIME * PRIME_INVERSE / WORD64;
    assert HASH_PRIME * PRIME_INVERSE == WORD64 * k + 1;
    Unmultiply(x, HASH_PRIME, PRIME_INVERSE, WORD64, k);
  }

  lemma Unmultiply(x: nat, p: nat, inv: nat, w: nat, k: nat)
    requires x < w && p * inv == w * k + 1
    ensures x * p % w * inv % w == x
  {
    var q := x * p / w;
    var r := x * p % w;
    assert x * p == w * q + r;
    assert r * inv == x + w * (x * k - q * inv) by {
      assert r * inv == (x * p) * inv - (w * q) * inv;
      assert (x * p) * inv == x * (p * inv) == x * (w * k + 1) == w * (x * k) + x;
      assert (w * q) * inv == w * (q * inv);
    }
    ModShift(x, w, x * k - q * inv);
    DivModUnique(x, w, 0, x);
  }

  lemma XorIn64(h: u64, b: byte)
    ensures Xor(h, b) < WORD64
  {
    Pow2Values();
    XorBound(h, b, 64);
  }

  /** Different accumulators stay different through a step. */
  lemma StepInjective(h: u64, g: u64, b: byte)
    requires HashStep(h, b) == HashStep(g, b)
    ensures h == g
  {
    XorIn64(h, b);
    XorIn64(g, b);
    PrimeInverse(Xor(h, b));
    PrimeInverse(Xor(g, b));
    XorCancel(h, b);
    XorCancel(g, b);
  }

  /** Different bytes give different accumulators. */
  lemma StepSeparates(h: u64, b: byte, c: byte)
    requires HashStep(h, b) == HashStep(h, c)
    ensures b == c
  {
    XorIn64(h, b);
    XorIn64(h, c);
    PrimeInverse(Xor(h, b));
    PrimeInverse(Xor(h, c));
    XorCancel(h, b);
    XorCancel(h, c);
  }

  // ------------------------------------------------------------------ whole regions

  /** Hashing in pieces is hashing at once. */
  lemma {:induction false} HashConcat(h: u64, x: seq<byte>, y: seq<byte>)
    ensures Hash(h, x + y) == Hash(Hash(h, x), y)
  {
    if y == [] {
      assert x + y == x;
    } else {
      HashConcat(h, x, y[..|y| - 1]);
      assert (x + y)[..|x + y| - 1] == x + y[..|y| - 1];
    }
  }

  lemma {:induction false} HashInjective(h: u64, g: u64, data: seq<byte>)
    requires Hash(h, data) == Hash(g, data)
    ensures h == g
  {
    if data != [] {
      var n := |data| - 1;
      StepInjective(Hash(h, data[..n]), Hash(g, data[..n]), data[n]);
      HashInjective(h, g, data[..n]);
    }
  }

  /** Changing exactly one byte of a region always changes its hash. */
  lemma OneByteChangesHash(data: seq<byte>, i: nat, b: byte)
    requires i < |data| && b != data[i]
    ensures HashOf(data[i := b]) != HashOf(data)
  {
    var x, y := data[..i], data[i + 1..];
    assert data == (x + [data[i]]) + y && data[i := b] == (x + [b]) + y;
    HashConcat(HASH_INIT, x + [data[i]], y);
    HashConcat(HASH_INIT, x + [b], y);
    HashConcat(HASH_INIT, x, [data[i]]);
    HashConcat(HASH_INIT, x, [b]);
    var h := Hash(HASH_INIT, x);
    if HashOf(data[i := b]) == HashOf(data) {
      HashInjective(HashStep(h, b), HashStep(h, data[i]), y);
      StepSeparates(h, b, data[i]);
    }
  }

  /** The byte that turns the low byte of the accumulator into another. */
  function Turning(low: byte, x: byte): byte {
    assert Xor(low, x) < 256 by {
      assert Pow2(8) == 256;
      XorBound(low, x, 8);
    }
    Xor(low, x)
  }

  /** Nine bytes whose hash is zero: 38, 239, 71, 110, 186, 121, 84, 250, 74. */
  function ZeroBytes(): (s: seq<byte>)
    ensures |s| == 9
  {
    [Turning(131, 165), Turning(95, 176), Turning(16, 87),
     Turning(213, 187), Turning(193, 123), Turning(1, 120),
     Turning(232, 188), Turning(116, 142), Turning(74, 0)]
  }

  /** Only the low byte of the accumulator meets the data. */
  lemma TurnStep(high: nat, low: byte, x: byte)
    requires 256 * high + low < WORD64
    ensures HashStep(256 * high + low, Turning(low, x)) == (256 * high + x) * HASH_PRIME % WORD64
  {
    hide Xor, Pow2;
    Pow2Values();
    XorLow(high, low, Turning(low, x), 8);
    XorCancel(low, x);
  }

  lemma HashNext(data: seq<byte>, k: nat)
    requires k < |data|
    ensures Hash(HASH_INIT, data[..k + 1]) == HashStep(Hash(HASH_INIT, data[..k]), data[k])
  {
    hide HashStep;
    assert data[..k + 1][..k] == data[..k];
  }

  lemma Turned(data: seq<byte>, k: nat, high: nat, low: byte, x: byte)
    requires k < |data| && 256 * high + low < WORD64
    ensures data[k] == Turning(low, x) && Hash(HASH_INIT, data[..k]) == 256 * high + low ==>
      Hash(HASH_INIT, data[..k + 1]) == (256 * high + x) * HASH_PRIME % WORD64
  {
    hide Hash, HashStep, Turning;
    HashNext(data, k);
    TurnStep(high, low, x);
  }

  lemma ZeroHead()
    ensures Hash(HASH_INIT, ZeroBytes()[..3]) == 15049385428376124885
  {
    hide Hash, Turning;
    EmptyHash();
    assert ZeroBytes()[..0] == [];
    Turned(ZeroBytes(), 0, 5740617593494787, 131, 165);
    assert Hash(HASH_INIT, ZeroBytes()[..1]) == 4953200740048646495;
    Turned(ZeroBytes(), 1, 19348440390815025, 95, 176);
    assert Hash(HASH_INIT, ZeroBytes()[..2]) == 11159057862824259088;
    Turned(ZeroBytes(), 2, 43590069776657262, 16, 87);
    assert Hash(HASH_INIT, ZeroBytes()[..3]) == 15049385428376124885;
  }

  lemma ZeroMiddle()
    ensures Hash(HASH_INIT, ZeroBytes()[..6]) == 3262014468997722856
  {
    hide Hash, Turning;
    ZeroHead();
    Turned(ZeroBytes(), 3, 58786661829594237, 213, 187);
    assert Hash(HASH_INIT, ZeroBytes()[..4]) == 3400282304369239233;
    Turned(ZeroBytes(), 4, 13282352751442340, 193, 123);
    assert Hash(HASH_INIT, ZeroBytes()[..5]) == 2925170481700175105;
    Turned(ZeroBytes(), 5, 11426447194141309, 1, 120);
    assert Hash(HASH_INIT, ZeroBytes()[..6]) == 3262014468997722856;
  }

  lemma ZeroTail()
    ensures Hash(HASH_INIT, ZeroBytes()[..9]) == 0
  {
    hide Hash, Turning;
    ZeroMiddle();
    Turned(ZeroBytes(), 6, 12742244019522354, 232, 188);
    assert Hash(HASH_INIT, ZeroBytes()[..7]) == 13218972385094874484;
    Turned(ZeroBytes(), 7, 51636610879276853, 116, 142);
    assert Hash(HASH_INIT, ZeroBytes()[..8]) == 74;
    Turned(ZeroBytes(), 8, 0, 74, 0);
    assert Hash(HASH_INIT, ZeroBytes()[..9]) == 0;
  }

  /** A region can hash to zero. */
  lemma ZeroHash()
    ensures HashOf(ZeroBytes()) == 0
  {
    hide Hash, Turning;
    ZeroTail();
    assert ZeroBytes()[..9] == ZeroBytes();
  }

  /** Bytes that are all zero never hash to zero: the accumulator stays odd. */
  lemma {:induction false} BlankHashOdd(n: nat)
    ensures HashOf(seq(n, _ => 0)) % 2 == 1
  {
    hide HashStep;
    var blank: seq<byte> := seq(n, _ => 0);
    if n > 0 {
      BlankHashOdd(n - 1);
      var before: seq<byte> := seq(n - 1, _ => 0);
      assert blank[..n - 1] == before;
      BlankStepOdd(HashOf(before));
    }
  }

  lemma BlankStepOdd(h: u64)
    requires h % 2 == 1
    ensures HashStep(h, 0) % 2 == 1
  {
    hide Xor;
    XorZero(h);
    var p, q := h * HASH_PRIME, h * HASH_PRIME / WORD64;
    assert p == WORD64 * q + p % WORD64;
    assert p == 2 * (h / 2 * HASH_PRIME + HASH_PRIME / 2) + 1;
  }

  // ------------------------------------------------------------- reading and hashing

  /** The accumulator loop over a buffer. */
  method HashUpdate(h: u64, data: seq<byte>) returns (r: u64)
    ensures r == Hash(h, data)
  {
    hide HashStep;
    r := h;
    for i := 0 to |data|
      invariant r == Hash(h, data[..i])
    {
      assert data[..i + 1][..i] == data[..i];
      r := HashStep(r, data[i]);
    }
    assert data[..|data|] == data;
  }

  /** Hashes a guest region in page-sized chunks; the result is the one-shot
      hash of its bytes. It fails only for an empty or unmapped region or a
      failing transfer.
    */
  method HashGuestRegion(s: Session, gpa: u64, size: u64) returns (r: Option<u64>)
    requires s.Valid()
    modifies s`calls
    ensures old(s.calls) <= s.calls
    ensures r.Some? ==>
      gpa + size <= |s.PhysicalMemory()| && r.value == HashOf(s.PhysicalMemory()[gpa..gpa + size])
    ensures r.None? ==>
      size == 0 || gpa + size > |s.PhysicalMemory()| || Trouble(s, old(s.calls), s.calls)
  {
    hide Hash;
    if size == 0 {
      return None;
    }
    ghost var ram := s.PhysicalMemory();
    EmptyHash();
    var h, offset := HASH_INIT, 0;
    while offset < size
      invariant offset <= size && (offset > 0 ==> gpa + offset <= |ram|)
      invariant h == Hash(HASH_INIT, if offset == 0 then [] else ram[gpa..gpa + offset])
      invariant s.Valid() && s.PhysicalMemory() == ram && old(s.calls) <= s.calls
    {
      var chunk := if size - offset > PAGE_SIZE then PAGE_SIZE else size - offset;
      ghost var before := s.calls;
      var ok, buf := s.ReadPhysical(Wrap64(gpa + offset), chunk);
      if !ok {
        if Trouble(s, before, s.calls) { TroubleMono(s, old(s.calls), before, s.calls); }
        return None;
      }
      NextChunk(ram, gpa, offset, chunk);
      h := HashUpdate(h, buf);
      offset := offset + chunk;
    }
    r := Some(h);
  }

  lemma HashOfIs(data: seq<byte>)
    ensures HashOf(data) == Hash(HASH_INIT, data)
  {
  }

  lemma EmptyHash()
    ensures Hash(HASH_INIT, []) == HASH_INIT
  {
  }

  lemma NextChunk(ram: seq<byte>, gpa: nat, offset: nat, n: nat)
    requires gpa + offset + n <= |ram|
    ensures
      var done := if offset == 0 then [] else ram[gpa..gpa + offset];
      Hash(HASH_INIT, ram[gpa..gpa + (offset + n)])
      == Hash(Hash(HASH_INIT, done), ram[gpa + offset..gpa + offset + n])
  {
    var done := if offset == 0 then [] else ram[gpa..gpa + offset];
    HashConcat(HASH_INIT, done, ram[gpa + offset..gpa + offset + n]);
    assert done + ram[gpa + offset..gpa + offset + n] == ram[gpa..gpa + (offset + n)];
  }
}

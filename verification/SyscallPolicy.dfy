/** The system call policy end to end: the entries of the .sentinel section as
    the loader encodes them into maps, and the decision the kernel hook takes
    from those maps at every system call.
  */
module SyscallPolicy {
  import opened Bits
  import opened Common
  import opened ModuleTrie

  const MODULE_MAIN: u32 := 1
  const CHECK_NR: nat := 0x1_0000_0000
  const MAX_POLICY_ENTRIES: nat := 4096
  const POLICY_CAPACITY: nat := 4096
  const CFI_CAPACITY: nat := 1024
  const DEFAULT_CFI_SIZE: nat := 4096

  // ---------------------------------------------------------------- the loader's side

  /** An entry of the .sentinel section: a site and its encoded number, where 0
      or less means any and `n + 1` means number `n`.
    */
  datatype PolicyEntry = PolicyEntry(site: u64, encoded: int)

  /** A parsed entry: the number is negative for a wildcard. */
  datatype Rule = Rule(site: u64, nr: int)

  function RuleOf(e: PolicyEntry): Rule {
    Rule(e.site, if e.encoded > 0 then e.encoded - 1 else -1)
  }

  /** All entries that name a site, in order. */
  function Parsed(entries: seq<PolicyEntry>): seq<Rule> {
    if entries == [] then []
    else
      var e := entries[|entries| - 1];
      Parsed(entries[..|entries| - 1]) + if e.site == 0 then [] else [RuleOf(e)]
  }

  /** The rules that are loaded: the table holds the first 4096. */
  function LoadedRules(entries: seq<PolicyEntry>): (rules: seq<Rule>)
    ensures |rules| <= MAX_POLICY_ENTRIES
  {
    var all := Parsed(entries);
    if |all| <= MAX_POLICY_ENTRIES then all else all[..MAX_POLICY_ENTRIES]
  }

  /** The entry loop: null sites are skipped, and a full table ends it. */
  method ParseSection(entries: seq<PolicyEntry>) returns (rules: seq<Rule>)
    ensures rules == LoadedRules(entries)
  {
    rules := [];
    var i := 0;
    while i < |entries| && |rules| < MAX_POLICY_ENTRIES
      invariant i <= |entries| && |rules| <= MAX_POLICY_ENTRIES
      invariant rules == Parsed(entries[..i])
    {
      assert entries[..i + 1][..i] == entries[..i];
      if entries[i].site != 0 {
        rules := rules + [RuleOf(entries[i])];
      }
      i := i + 1;
    }
    ParsedPrefix(entries, i);
    assert entries[..|entries|] == entries;
  }

  lemma {:induction false} ParsedPrefix(entries: seq<PolicyEntry>, i: nat)
    requires i <= |entries|
    ensures Parsed(entries[..i]) <= Parsed(entries)
    decreases |entries| - i
  {
    if i == |entries| {
      assert entries[..i] == entries;
    } else {
      assert entries[..i + 1][..i] == entries[..i];
      ParsedPrefix(entries, i + 1);
    }
  }

  /** The policy value of a rule: the check flag with the number, or 1. */
  function Encode(nr: int): nat {
    if nr >= 0 then Or(CHECK_NR, nr % WORD32) else 1
  }

  /** What the kernel reads out of a policy value: any number, or one. */
  predicate Permits(value: nat, nr: u32) {
    And(value, CHECK_NR) == 0 || And(value, 0xFFFF_FFFF) == nr
  }

  /** The kernel decodes exactly what the loader encoded. */
  lemma DecodeEncode(rule: int, nr: u32)
    ensures Permits(Encode(rule), nr) <==> rule < 0 || rule % WORD32 == nr
  {
    Pow2Values();
    hide Pow2, And, Or;
    var low := if rule >= 0 then rule % WORD32 else 1;
    OrAligned(CHECK_NR, rule % WORD32, 32);
    var v := Encode(rule);
    AndField(v, 32, 33);
    AndLowMask(v, 32);
    assert v % WORD32 == low;
  }

  /** A link-time address relative to the image's load base. */
  function RuntimeOffset(site: u64, loadBase: u64): u64 {
    Sub64(site, loadBase)
  }

  /** The policy map of the first `n` rules. */
  function PolicyMap(rules: seq<Rule>, loadBase: u64, n: nat): map<u64, nat>
    requires n <= |rules|
  {
    if n == 0 then map[]
    else PolicyMap(rules, loadBase, n - 1)[RuntimeOffset(rules[n - 1].site, loadBase) := Encode(rules[n - 1].nr)]
  }

  lemma {:induction false} PolicyMapSize(rules: seq<Rule>, loadBase: u64, n: nat)
    requires n <= |rules|
    ensures |PolicyMap(rules, loadBase, n)| <= n
  {
    hide Encode, RuntimeOffset;
    if n > 0 {
      PolicyMapSize(rules, loadBase, n - 1);
      var m, k := PolicyMap(rules, loadBase, n - 1), RuntimeOffset(rules[n - 1].site, loadBase);
      assert PolicyMap(rules, loadBase, n).Keys == m.Keys + {k};
    }
  }

  /** Fills the policy map of the main module; it has room for every rule. */
  method PopulatePolicy(rules: seq<Rule>, loadBase: u64) returns (policy: map<u64, nat>, loaded: nat)
    requires |rules| <= MAX_POLICY_ENTRIES
    ensures policy == PolicyMap(rules, loadBase, |rules|) && loaded == |rules|
  {
    hide Encode, RuntimeOffset;
    policy, loaded := map[], 0;
    for i := 0 to |rules|
      invariant policy == PolicyMap(rules, loadBase, i) && loaded == i
    {
      var offset := RuntimeOffset(rules[i].site, loadBase);
      PolicyMapSize(rules, loadBase, i);
      if offset in policy || |policy| < POLICY_CAPACITY {
        policy := policy[offset := Encode(rules[i].nr)];
        loaded := loaded + 1;
      }
    }
  }

  /** The last of the first `n` rules that is for an offset. */
  function LastRule(rules: seq<Rule>, loadBase: u64, n: nat, offset: u64): Option<Rule>
    requires n <= |rules|
  {
    if n == 0 then None
    else if RuntimeOffset(rules[n - 1].site, loadBase) == offset then Some(rules[n - 1])
    else LastRule(rules, loadBase, n - 1, offset)
  }

  lemma {:induction false} PolicyMapIsLast(rules: seq<Rule>, loadBase: u64, n: nat, offset: u64)
    requires n <= |rules|
    ensures
      var m, last := PolicyMap(rules, loadBase, n), LastRule(rules, loadBase, n, offset);
      && (offset in m <==> last.Some?)
      && (last.Some? ==> m[offset] == Encode(last.value.nr))
  {
    hide Encode, RuntimeOffset;
    if n > 0 { PolicyMapIsLast(rules, loadBase, n - 1, offset); }
  }

  // ------------------------------------------------------------------- caller ranges

  datatype Range = Range(start: u64, end: u64)

  /** An entry of the .sentinel_cfi section with its function's size, 0 if unknown. */
  datatype CfiEntry = CfiEntry(site: u64, func: u64, size: u64)

  /** The entries that name a site, in order. */
  function NamedCfi(section: seq<CfiEntry>): (entries: seq<CfiEntry>)
    ensures |entries| <= |section|
  {
    if section == [] then []
    else
      var e := section[|section| - 1];
      NamedCfi(section[..|section| - 1]) + if e.site == 0 then [] else [e]
  }

  /** The caller entries that are loaded: the table holds the first 4096. */
  function LoadedCfi(section: seq<CfiEntry>): (entries: seq<CfiEntry>)
    ensures |entries| <= MAX_POLICY_ENTRIES
  {
    var all := NamedCfi(section);
    if |all| <= MAX_POLICY_ENTRIES then all else all[..MAX_POLICY_ENTRIES]
  }

  /** The entry loop: null sites are skipped, and a full table ends it. */
  method ParseCfiSection(section: seq<CfiEntry>) returns (entries: seq<CfiEntry>)
    ensures entries == LoadedCfi(section)
  {
    entries := [];
    var i := 0;
    while i < |section| && |entries| < MAX_POLICY_ENTRIES
      invariant i <= |section| && |entries| <= MAX_POLICY_ENTRIES
      invariant entries == NamedCfi(section[..i])
    {
      assert section[..i + 1][..i] == section[..i];
      if section[i].site != 0 {
        entries := entries + [section[i]];
      }
      i := i + 1;
    }
    NamedCfiPrefix(section, i);
    assert section[..|section|] == section;
  }

  lemma {:induction false} NamedCfiPrefix(section: seq<CfiEntry>, i: nat)
    requires i <= |section|
    ensures NamedCfi(section[..i]) <= NamedCfi(section)
    decreases |section| - i
  {
    if i == |section| {
      assert section[..i] == section;
    } else {
      assert section[..i + 1][..i] == section[..i];
      NamedCfiPrefix(section, i + 1);
    }
  }

  function RangeOf(e: CfiEntry, loadBase: u64): Range {
    var start := RuntimeOffset(e.func, loadBase);
    Range(start, Wrap64(start + if e.size == 0 then DEFAULT_CFI_SIZE else e.size))
  }

  /** The caller map of the first `n` entries; a full map refuses new sites. */
  function CfiMap(entries: seq<CfiEntry>, loadBase: u64, n: nat): map<u64, Range>
    requires n <= |entries|
  {
    if n == 0 then map[]
    else
      var m := CfiMap(entries, loadBase, n - 1);
      var k := RuntimeOffset(entries[n - 1].site, loadBase);
      if k in m || |m| < CFI_CAPACITY then m[k := RangeOf(entries[n - 1], loadBase)] else m
  }

  lemma {:induction false} CfiMapSize(entries: seq<CfiEntry>, loadBase: u64, n: nat)
    requires n <= |entries|
    ensures |CfiMap(entries, loadBase, n)| <= CFI_CAPACITY
  {
    hide RuntimeOffset, RangeOf;
    if n > 0 {
      CfiMapSize(entries, loadBase, n - 1);
      var m, k := CfiMap(entries, loadBase, n - 1), RuntimeOffset(entries[n - 1].site, loadBase);
      assert m[k := RangeOf(entries[n - 1], loadBase)].Keys == m.Keys + {k};
    }
  }

  method PopulateCfi(entries: seq<CfiEntry>, loadBase: u64) returns (cfi: map<u64, Range>)
    ensures cfi == CfiMap(entries, loadBase, |entries|) && |cfi| <= CFI_CAPACITY
  {
    hide RuntimeOffset, RangeOf;
    cfi := map[];
    for i := 0 to |entries|
      invariant cfi == CfiMap(entries, loadBase, i)
    {
      var k := RuntimeOffset(entries[i].site, loadBase);
      if k in cfi || |cfi| < CFI_CAPACITY {
        cfi := cfi[k := RangeOf(entries[i], loadBase)];
      }
    }
    CfiMapSize(entries, loadBase, |entries|);
  }

  /** The last of the first `n` entries for an offset. */
  function LastCfi(entries: seq<CfiEntry>, loadBase: u64, n: nat, offset: u64): Option<CfiEntry>
    requires n <= |entries|
  {
    if n == 0 then None
    else if RuntimeOffset(entries[n - 1].site, loadBase) == offset then Some(entries[n - 1])
    else LastCfi(entries, loadBase, n - 1, offset)
  }

  /** The run-time offsets that the first `n` entries name. */
  function CfiOffsets(entries: seq<CfiEntry>, loadBase: u64, n: nat): set<u64>
    requires n <= |entries|
  {
    if n == 0 then {} else CfiOffsets(entries, loadBase, n - 1) + {RuntimeOffset(entries[n - 1].site, loadBase)}
  }

  /** The caller map has an entry for every site named if and only if the sites
      are no more than it holds; past that, some site goes unchecked.
    */
  lemma {:induction false} CfiMapCompleteIff(entries: seq<CfiEntry>, loadBase: u64, n: nat)
    requires n <= |entries|
    ensures CfiMap(entries, loadBase, n).Keys <= CfiOffsets(entries, loadBase, n)
    ensures CfiMap(entries, loadBase, n).Keys == CfiOffsets(entries, loadBase, n)
       <==> |CfiOffsets(entries, loadBase, n)| <= CFI_CAPACITY
  {
    hide RuntimeOffset, RangeOf;
    CfiMapSize(entries, loadBase, n);
    if n > 0 {
      CfiMapCompleteIff(entries, loadBase, n - 1);
      var m, k := CfiMap(entries, loadBase, n - 1), RuntimeOffset(entries[n - 1].site, loadBase);
      var named := CfiOffsets(entries, loadBase, n - 1);
      assert m[k := RangeOf(entries[n - 1], loadBase)].Keys == m.Keys + {k};
      assert |m| == |m.Keys|;
      if k in named {
        assert named + {k} == named;
      }
    }
    assert |CfiMap(entries, loadBase, n)| == |CfiMap(entries, loadBase, n).Keys|;
  }

  /** The caller map holds as many sites as are named, up to its capacity. */
  lemma {:induction false} CfiMapCount(entries: seq<CfiEntry>, loadBase: u64, n: nat)
    requires n <= |entries|
    ensures
      var named := |CfiOffsets(entries, loadBase, n)|;
      |CfiMap(entries, loadBase, n)| == if named <= CFI_CAPACITY then named else CFI_CAPACITY
  {
    hide RuntimeOffset, RangeOf;
    if n > 0 {
      CfiMapCount(entries, loadBase, n - 1);
      CfiMapCompleteIff(entries, loadBase, n - 1);
      var m, k := CfiMap(entries, loadBase, n - 1), RuntimeOffset(entries[n - 1].site, loadBase);
      var named := CfiOffsets(entries, loadBase, n - 1);
      assert m[k := RangeOf(entries[n - 1], loadBase)].Keys == m.Keys + {k};
      assert |m| == |m.Keys|;
      if k in named {
        assert named + {k} == named;
      }
    }
  }

  /** One of the first `n` entries names the offset while the caller map still
      has room.
    */
  ghost predicate CfiKept(entries: seq<CfiEntry>, loadBase: u64, n: nat, offset: u64)
    requires n <= |entries|
  {
    exists i :: 0 <= i < n && RuntimeOffset(entries[i].site, loadBase) == offset
                && |CfiOffsets(entries, loadBase, i)| < CFI_CAPACITY
  }

  /** The sites in the caller map are exactly those first named while it had
      room.
    */
  lemma {:induction false} CfiMapKeeps(entries: seq<CfiEntry>, loadBase: u64, n: nat, offset: u64)
    requires n <= |entries|
    ensures offset in CfiMap(entries, loadBase, n) <==> CfiKept(entries, loadBase, n, offset)
  {
    hide RuntimeOffset, RangeOf, CfiOffsets;
    if n > 0 {
      CfiMapKeeps(entries, loadBase, n - 1, offset);
      CfiMapCount(entries, loadBase, n - 1);
    }
  }

  /** A site in the caller map has the range of its last entry. */
  lemma {:induction false} CfiMapIsLast(entries: seq<CfiEntry>, loadBase: u64, n: nat, offset: u64)
    requires n <= |entries|
    ensures
      var m, last := CfiMap(entries, loadBase, n), LastCfi(entries, loadBase, n, offset);
      && (offset in CfiOffsets(entries, loadBase, n) <==> last.Some?)
      && (offset in m ==> last.Some? && m[offset] == RangeOf(last.value, loadBase))
  {
    hide RuntimeOffset, RangeOf;
    if n > 0 {
      CfiMapIsLast(entries, loadBase, n - 1, offset);
    }
  }

  // ---------------------------------------------------------------- the kernel's side

  datatype Config = Config(systemWide: bool, cgroupFilter: bool, learn: bool, shadow: bool)

  /** The maps as the hook reads them; `vma` is the module lookup. */
  datatype Maps = Maps(
    tracked: set<u32>, cgroups: set<u64>, fallback: set<u32>, vma: u64 -> Option<Value>,
    registry: map<u32, map<u64, nat>>, threads: map<(u32, u32), u32>, cfi: map<u64, Range>)

  /** A system call: who makes it, from where, and the user stack at that point. */
  datatype Call = Call(tgid: u32, tid: u32, cgroup: u64, rip: Option<u64>, nr: u32, stack: seq<u64>)

  datatype Verdict = Skipped | Learned | Allowed | Denied(reason: Reason)

  datatype Reason = Fallback | NoRegisters | UnknownModule | NoPolicy | UnknownSite | ThreadLimit
                  | WrongNumber | ShadowStack | BadCaller

  const MAX_SHADOW_DEPTH: nat := 8

  function Site(rip: u64): u64 {
    Sub64(rip, 2)
  }

  predicate FramesKnown(vma: u64 -> Option<Value>, stack: seq<u64>) {
    forall i :: 1 <= i < |stack| && i < MAX_SHADOW_DEPTH ==> vma(stack[i]).Some?
  }

  predicate CallerOk(r: Range, base: u64, stack: seq<u64>) {
    |stack| >= 2 && r.start <= OffsetIn(base, stack[1]) <= r.end
  }

  /** The hook's decision for a call from a known module. */
  function CheckSite(cfg: Config, maps: Maps, c: Call, m: Value, offset: u64): Verdict {
    if m.moduleId !in maps.registry then Denied(NoPolicy)
    else if offset !in maps.registry[m.moduleId] then Denied(UnknownSite)
    else if (c.tgid, c.tid) in maps.threads && maps.threads[(c.tgid, c.tid)] != 0
            && c.nr > maps.threads[(c.tgid, c.tid)] then Denied(ThreadLimit)
    else if !Permits(maps.registry[m.moduleId][offset], c.nr) then Denied(WrongNumber)
    else if cfg.shadow && |c.stack| >= 2 && !FramesKnown(maps.vma, c.stack) then Denied(ShadowStack)
    else if offset in maps.cfi && !CallerOk(maps.cfi[offset], m.base, c.stack) then Denied(BadCaller)
    else Allowed
  }

  /** The hook's decision. */
  function Check(cfg: Config, maps: Maps, c: Call): Verdict {
    if c.tgid !in maps.tracked then
      if !cfg.systemWide || c.nr in maps.fallback then Skipped else Denied(Fallback)
    else if cfg.cgroupFilter && c.cgroup !in maps.cgroups then Skipped
    else if c.rip.None? then Denied(NoRegisters)
    else
      var site := Site(c.rip.value);
      var m := maps.vma(site);
      if m.None? then (if cfg.learn then Learned else Denied(UnknownModule))
      else if cfg.learn then Learned
      else CheckSite(cfg, maps, c, m.value, OffsetIn(m.value.base, site))
  }

  // --------------------------------------------------------------------- end to end

  /** Where a rule's site is at run time, with the module loaded at `base`. */
  function Relocated(site: u64, loadBase: u64, base: u64): u64 {
    Wrap64(base + RuntimeOffset(site, loadBase))
  }

  lemma RelocatedIs(site: u64, loadBase: u64, base: u64, addr: u64)
    ensures Relocated(site, loadBase, base) == addr <==> RuntimeOffset(site, loadBase) == OffsetIn(base, addr)
  {
    var x := RuntimeOffset(site, loadBase);
    if addr >= base {
      ModShift(addr - base, WORD64, 1);
      DivModUnique(addr - base, WORD64, 0, addr - base);
    } else {
      DivModUnique(addr + WORD64 - base, WORD64, 0, addr + WORD64 - base);
    }
    if base + x < WORD64 {
      DivModUnique(base + x, WORD64, 0, base + x);
    } else {
      DivModUnique(base + x, WORD64, 1, base + x - WORD64);
    }
  }

  /** The last rule whose run-time address is a site. */
  function LastRuleAt(rules: seq<Rule>, loadBase: u64, base: u64, n: nat, site: u64): Option<Rule>
    requires n <= |rules|
  {
    if n == 0 then None
    else if Relocated(rules[n - 1].site, loadBase, base) == site then Some(rules[n - 1])
    else LastRuleAt(rules, loadBase, base, n - 1, site)
  }

  lemma {:induction false} LastRuleRelocated(rules: seq<Rule>, loadBase: u64, base: u64, n: nat, site: u64)
    requires n <= |rules|
    ensures LastRuleAt(rules, loadBase, base, n, site) == LastRule(rules, loadBase, n, OffsetIn(base, site))
  {
    hide Relocated, RuntimeOffset, OffsetIn;
    if n > 0 {
      LastRuleRelocated(rules, loadBase, base, n - 1, site);
      RelocatedIs(rules[n - 1].site, loadBase, base, site);
    }
  }

  /** The last caller range whose run-time site is a given one. */
  function LastCfiAt(entries: seq<CfiEntry>, loadBase: u64, base: u64, n: nat, site: u64): Option<CfiEntry>
    requires n <= |entries|
  {
    if n == 0 then None
    else if Relocated(entries[n - 1].site, loadBase, base) == site then Some(entries[n - 1])
    else LastCfiAt(entries, loadBase, base, n - 1, site)
  }

  lemma {:induction false} LastCfiRelocated(entries: seq<CfiEntry>, loadBase: u64, base: u64, n: nat, site: u64)
    requires n <= |entries|
    ensures LastCfiAt(entries, loadBase, base, n, site) == LastCfi(entries, loadBase, n, OffsetIn(base, site))
  {
    hide Relocated, RuntimeOffset, OffsetIn;
    if n > 0 {
      LastCfiRelocated(entries, loadBase, base, n - 1, site);
      RelocatedIs(entries[n - 1].site, loadBase, base, site);
    }
  }

  /** A call the hook looks at: of a tracked process in an enforced cgroup. */
  predicate Enforced(cfg: Config, maps: Maps, c: Call) {
    c.tgid in maps.tracked && (cfg.cgroupFilter ==> c.cgroup in maps.cgroups) && c.rip.Some?
  }

  /** The call's number is within its thread's limit, if it has one. */
  predicate ThreadOk(maps: Maps, c: Call) {
    (c.tgid, c.tid) in maps.threads ==>
      var limit := maps.threads[(c.tgid, c.tid)];
      limit == 0 || c.nr <= limit
  }

  /** The caller lies in the range of the last entry for the site, if the caller
      map keeps the site.
    */
  ghost predicate CallerChecked(entries: seq<CfiEntry>, loadBase: u64, base: u64, site: u64, stack: seq<u64>) {
    CfiKept(entries, loadBase, |entries|, OffsetIn(base, site)) ==>
      var cfi := LastCfiAt(entries, loadBase, base, |entries|, site);
      cfi.Some? && CallerOk(RangeOf(cfi.value, loadBase), base, stack)
  }

  /** With the loader's maps in place, a call from the main module is not denied
      if and only if the hook is learning, or its site is the run-time address
      of a rule, the last such rule is a wildcard or names the call's number,
      the caller lies in the range of the last caller entry for the site, if
      the caller map keeps the site, and the thread limit and the shadow stack,
      where they are on, allow it. This holds for every load base and any
      number of caller entries.
    */
  lemma {:induction false} NotDeniedIff(cfg: Config, maps: Maps, c: Call, base: u64, loadBase: u64,
                                        rules: seq<Rule>, entries: seq<CfiEntry>)
    requires Enforced(cfg, maps, c) && maps.vma(Site(c.rip.value)) == Some(Value(MODULE_MAIN, base))
    requires MODULE_MAIN in maps.registry && maps.registry[MODULE_MAIN] == PolicyMap(rules, loadBase, |rules|)
    requires maps.cfi == CfiMap(entries, loadBase, |entries|)
    ensures
      var site := Site(c.rip.value);
      var rule := LastRuleAt(rules, loadBase, base, |rules|, site);
      !Check(cfg, maps, c).Denied? <==>
        || cfg.learn
        || (&& rule.Some?
            && (rule.value.nr < 0 || rule.value.nr % WORD32 == c.nr)
            && CallerChecked(entries, loadBase, base, site, c.stack)
            && ThreadOk(maps, c)
            && (cfg.shadow && |c.stack| >= 2 ==> FramesKnown(maps.vma, c.stack)))
  {
    hide PolicyMap, CfiMap, CfiOffsets, CfiKept, Encode, Permits;
    hide RuntimeOffset, OffsetIn, RangeOf, CallerOk, FramesKnown;
    var site := Site(c.rip.value);
    var offset := OffsetIn(base, site);
    LastRuleRelocated(rules, loadBase, base, |rules|, site);
    LastCfiRelocated(entries, loadBase, base, |entries|, site);
    PolicyMapIsLast(rules, loadBase, |rules|, offset);
    CfiMapIsLast(entries, loadBase, |entries|, offset);
    CfiMapKeeps(entries, loadBase, |entries|, offset);
    var rule := LastRule(rules, loadBase, |rules|, offset);
    if rule.Some? {
      DecodeEncode(rule.value.nr, c.nr);
    }
  }

  // ------------------------------------------------------- the entries of the sections

  function SitesOf(section: seq<PolicyEntry>): (sites: seq<u64>)
    ensures |sites| == |section| && forall i :: 0 <= i < |section| ==> sites[i] == section[i].site
  {
    seq(|section|, i requires 0 <= i < |section| => section[i].site)
  }

  function CallerSites(callers: seq<CfiEntry>): (sites: seq<u64>)
    ensures |sites| == |callers| && forall i :: 0 <= i < |callers| ==> sites[i] == callers[i].site
  {
    seq(|callers|, i requires 0 <= i < |callers| => callers[i].site)
  }

  /** How many of the first `n` entries name a site. */
  function NamedBefore(sites: seq<u64>, n: nat): (r: nat)
    requires n <= |sites|
    ensures r <= n
  {
    if n == 0 then 0 else NamedBefore(sites, n - 1) + if sites[n - 1] == 0 then 0 else 1
  }

  /** Entry `i` is loaded: it names a site, and fewer than 4096 before it do. */
  predicate LoadedAt(sites: seq<u64>, i: nat) {
    i < |sites| && sites[i] != 0 && NamedBefore(sites, i) < 4096
  }

  /** A link-time address is found at `addr` when the program runs. */
  predicate RunsAt(link: u64, loadBase: u64, base: u64, addr: u64) {
    (link - loadBase + base) % WORD64 == addr
  }

  /** Entry `i` is the last one loaded for a run-time address. */
  ghost predicate LastFor(sites: seq<u64>, loadBase: u64, base: u64, addr: u64, i: nat) {
    && LoadedAt(sites, i) && RunsAt(sites[i], loadBase, base, addr)
    && forall j: nat :: i < j && LoadedAt(sites, j) ==> !RunsAt(sites[j], loadBase, base, addr)
  }

  /** The last entry loaded for a site allows any number, or the given one. */
  ghost predicate NumberAllowed(section: seq<PolicyEntry>, loadBase: u64, base: u64, addr: u64, nr: u32) {
    exists i: nat ::
      && i < |section| && LastFor(SitesOf(section), loadBase, base, addr, i)
      && (section[i].encoded <= 0 || (section[i].encoded - 1) % WORD32 == nr)
  }

  /** The different sites that entries loaded before `i` name. */
  ghost function SitesBefore(sites: seq<u64>, i: nat): set<u64>
    requires i <= |sites|
  {
    set j: nat | j < i && LoadedAt(sites, j) :: sites[j]
  }

  /** Some entry loaded for the site comes when fewer than 1024 others were named. */
  ghost predicate CallerKept(sites: seq<u64>, loadBase: u64, base: u64, addr: u64) {
    exists i: nat ::
      LoadedAt(sites, i) && RunsAt(sites[i], loadBase, base, addr) && |SitesBefore(sites, i)| < 1024
  }

  /** The caller is in the function of an entry, ends included, by offsets. */
  predicate CallerWithin(e: CfiEntry, loadBase: u64, base: u64, stack: seq<u64>) {
    && |stack| >= 2
    && var start, caller := (e.func - loadBase) % WORD64, (stack[1] - base) % WORD64;
    start <= caller <= (start + if e.size == 0 then 4096 else e.size) % WORD64
  }

  /** A site that the caller map keeps is called from the function of its last entry. */
  ghost predicate CallerAllowed(callers: seq<CfiEntry>, loadBase: u64, base: u64, addr: u64, stack: seq<u64>) {
    CallerKept(CallerSites(callers), loadBase, base, addr) ==>
      exists i: nat ::
        && i < |callers| && LastFor(CallerSites(callers), loadBase, base, addr, i)
        && CallerWithin(callers[i], loadBase, base, stack)
  }

  lemma SubIs(a: u64, b: u64)
    ensures Sub64(a, b) == (a - b) % WORD64
  {
    if a >= b { DivModUnique(a - b, WORD64, 0, a - b); } else { DivModUnique(a - b, WORD64, -1, a - b + WORD64); }
  }

  lemma RelocatedRunsAt(link: u64, loadBase: u64, base: u64, addr: u64)
    ensures Relocated(link, loadBase, base) == addr <==> RunsAt(link, loadBase, base, addr)
  {
    var x := RuntimeOffset(link, loadBase);
    if link < loadBase { ModShift(link - loadBase + base, WORD64, 1); }
  }

  lemma {:induction false} NamedMono(sites: seq<u64>, i: nat, n: nat)
    requires i < n <= |sites|
    ensures NamedBefore(sites, i) + (if sites[i] != 0 then 1 else 0) <= NamedBefore(sites, n)
  {
    if i < n - 1 { NamedMono(sites, i, n - 1); }
  }

  /** The entry that is number `k` among those naming a site. */
  lemma {:induction false} NamedAt(sites: seq<u64>, n: nat, k: nat) returns (i: nat)
    requires n <= |sites| && k < NamedBefore(sites, n)
    ensures i < n && sites[i] != 0 && NamedBefore(sites, i) == k
  {
    if k < NamedBefore(sites, n - 1) { i := NamedAt(sites, n - 1, k); } else { i := n - 1; }
  }

  lemma {:induction false} ParsedAt(section: seq<PolicyEntry>, n: nat, i: nat)
    requires n <= |section|
    ensures |Parsed(section[..n])| == NamedBefore(SitesOf(section), n)
    ensures i < n && section[i].site != 0 ==>
      var k := NamedBefore(SitesOf(section), i);
      k < |Parsed(section[..n])| && Parsed(section[..n])[k] == RuleOf(section[i])
  {
    hide RuleOf;
    if n > 0 {
      ParsedAt(section, n - 1, i);
      assert section[..n][..n - 1] == section[..n - 1];
    }
  }

  /** The loaded rules are those of the loaded entries, in order. */
  lemma RuleLoaded(section: seq<PolicyEntry>, i: nat)
    ensures LoadedAt(SitesOf(section), i) ==>
      var k := NamedBefore(SitesOf(section), i);
      k < |LoadedRules(section)| && LoadedRules(section)[k] == RuleOf(section[i])
    ensures |LoadedRules(section)| <= NamedBefore(SitesOf(section), |section|)
  {
    hide RuleOf, SitesOf;
    ParsedAt(section, |section|, i);
    assert section[..|section|] == section;
  }

  lemma {:induction false} NamedCfiAt(callers: seq<CfiEntry>, n: nat, i: nat)
    requires n <= |callers|
    ensures |NamedCfi(callers[..n])| == NamedBefore(CallerSites(callers), n)
    ensures i < n && callers[i].site != 0 ==>
      var k := NamedBefore(CallerSites(callers), i);
      k < |NamedCfi(callers[..n])| && NamedCfi(callers[..n])[k] == callers[i]
  {
    if n > 0 {
      NamedCfiAt(callers, n - 1, i);
      assert callers[..n][..n - 1] == callers[..n - 1];
    }
  }

  lemma CallerLoaded(callers: seq<CfiEntry>, i: nat)
    ensures LoadedAt(CallerSites(callers), i) ==>
      var k := NamedBefore(CallerSites(callers), i);
      k < |LoadedCfi(callers)| && LoadedCfi(callers)[k] == callers[i]
    ensures |LoadedCfi(callers)| <= NamedBefore(CallerSites(callers), |callers|)
  {
    hide CallerSites;
    NamedCfiAt(callers, |callers|, i);
    assert callers[..|callers|] == callers;
  }

  /** The sites of the loaded entries, in order. */
  ghost predicate Picked(sites: seq<u64>, picked: seq<u64>) {
    && |picked| <= 4096 && |picked| <= NamedBefore(sites, |sites|)
    && forall i: nat :: LoadedAt(sites, i) ==> PickedAs(sites, picked, i)
  }

  predicate PickedAs(sites: seq<u64>, picked: seq<u64>, i: nat)
    requires i < |sites|
  {
    var k := NamedBefore(sites, i);
    k < |picked| && picked[k] == sites[i]
  }

  ghost predicate LastAmong(picked: seq<u64>, loadBase: u64, base: u64, addr: u64, k: nat) {
    && k < |picked| && RunsAt(picked[k], loadBase, base, addr)
    && forall j :: k < j < |picked| ==> !RunsAt(picked[j], loadBase, base, addr)
  }

  /** The last loaded site with an address is that of the last loaded entry for it. */
  lemma LastPicked(sites: seq<u64>, picked: seq<u64>, loadBase: u64, base: u64, addr: u64, k: nat) returns (i: nat)
    requires Picked(sites, picked) && LastAmong(picked, loadBase, base, addr, k)
    ensures LastFor(sites, loadBase, base, addr, i) && NamedBefore(sites, i) == k
  {
    hide RunsAt, NamedBefore;
    i := NamedAt(sites, |sites|, k);
    assert LoadedAt(sites, i) && PickedAs(sites, picked, i);
    forall j: nat | i < j && LoadedAt(sites, j) ensures !RunsAt(sites[j], loadBase, base, addr) {
      NamedMono(sites, i, j);
      assert PickedAs(sites, picked, j);
    }
  }

  lemma NonePicked(sites: seq<u64>, picked: seq<u64>, loadBase: u64, base: u64, addr: u64, i: nat)
    requires Picked(sites, picked) && forall k :: 0 <= k < |picked| ==> !RunsAt(picked[k], loadBase, base, addr)
    ensures !LastFor(sites, loadBase, base, addr, i)
  {
    hide RunsAt, NamedBefore;
    if LoadedAt(sites, i) {
      assert PickedAs(sites, picked, i);
    }
  }

  lemma LastForUnique(sites: seq<u64>, loadBase: u64, base: u64, addr: u64, i: nat, j: nat)
    requires LastFor(sites, loadBase, base, addr, i) && LastFor(sites, loadBase, base, addr, j)
    ensures i == j
  {
  }

  lemma {:induction false} LastRuleAmong(rules: seq<Rule>, picked: seq<u64>, loadBase: u64, base: u64, addr: u64,
                                         n: nat) returns (k: nat)
    requires n <= |rules| == |picked| && forall j :: 0 <= j < |rules| ==> picked[j] == rules[j].site
    ensures
      var r := LastRuleAt(rules, loadBase, base, n, addr);
      if r.None? then forall j :: 0 <= j < n ==> !RunsAt(picked[j], loadBase, base, addr)
      else k < n && r.value == rules[k] && LastAmong(picked[..n], loadBase, base, addr, k)
  {
    hide Relocated, RunsAt;
    k := 0;
    if n > 0 {
      RelocatedRunsAt(rules[n - 1].site, loadBase, base, addr);
      if Relocated(rules[n - 1].site, loadBase, base) == addr {
        k := n - 1;
      } else {
        k := LastRuleAmong(rules, picked, loadBase, base, addr, n - 1);
      }
    }
  }

  /** The rule that decides is that of the last entry loaded for the site. */
  lemma LastRuleEntry(section: seq<PolicyEntry>, loadBase: u64, base: u64, addr: u64) returns (i: nat)
    ensures
      var rules := LoadedRules(section);
      var r := LastRuleAt(rules, loadBase, base, |rules|, addr);
      if r.None? then forall j: nat :: !LastFor(SitesOf(section), loadBase, base, addr, j)
      else LastFor(SitesOf(section), loadBase, base, addr, i) && i < |section| && r.value == RuleOf(section[i])
  {
    hide Relocated, RunsAt, LoadedRules, LastRuleAt, LastFor, LastAmong, NamedBefore;
    var rules, sites := LoadedRules(section), SitesOf(section);
    var picked: seq<u64> := seq(|rules|, k requires 0 <= k < |rules| => rules[k].site);
    forall j: nat | LoadedAt(sites, j) ensures PickedAs(sites, picked, j) {
      RuleLoaded(section, j);
    }
    RuleLoaded(section, 0);
    assert picked[..|rules|] == picked;
    var k := LastRuleAmong(rules, picked, loadBase, base, addr, |rules|);
    i := 0;
    if LastRuleAt(rules, loadBase, base, |rules|, addr).Some? {
      i := LastPicked(sites, picked, loadBase, base, addr, k);
      LastForLoaded(sites, loadBase, base, addr, i);
      RuleLoaded(section, i);
    } else {
      forall j: nat ensures !LastFor(sites, loadBase, base, addr, j) {
        NonePicked(sites, picked, loadBase, base, addr, j);
      }
    }
  }

  lemma LastForLoaded(sites: seq<u64>, loadBase: u64, base: u64, addr: u64, i: nat)
    requires LastFor(sites, loadBase, base, addr, i)
    ensures LoadedAt(sites, i)
  {
  }

  /** The rules the kernel finds allow a number exactly when the entries of the section do. */
  lemma NumberAllowedIff(section: seq<PolicyEntry>, loadBase: u64, base: u64, addr: u64, nr: u32)
    ensures
      var rules := LoadedRules(section);
      var r := LastRuleAt(rules, loadBase, base, |rules|, addr);
      NumberAllowed(section, loadBase, base, addr, nr) <==>
      r.Some? && (r.value.nr < 0 || r.value.nr % WORD32 == nr)
  {
    hide LoadedRules, LastRuleAt, LastFor;
    var i := LastRuleEntry(section, loadBase, base, addr);
    forall j: nat | LastFor(SitesOf(section), loadBase, base, addr, j)
                    && LastFor(SitesOf(section), loadBase, base, addr, i)
      ensures j == i
    {
      LastForUnique(SitesOf(section), loadBase, base, addr, i, j);
    }
  }

  lemma {:induction false} LastCfiAmong(entries: seq<CfiEntry>, picked: seq<u64>, loadBase: u64, base: u64, addr: u64,
                                        n: nat) returns (k: nat)
    requires n <= |entries| == |picked| && forall j :: 0 <= j < |entries| ==> picked[j] == entries[j].site
    ensures
      var r := LastCfiAt(entries, loadBase, base, n, addr);
      if r.None? then forall j :: 0 <= j < n ==> !RunsAt(picked[j], loadBase, base, addr)
      else k < n && r.value == entries[k] && LastAmong(picked[..n], loadBase, base, addr, k)
  {
    hide Relocated, RunsAt;
    k := 0;
    if n > 0 {
      RelocatedRunsAt(entries[n - 1].site, loadBase, base, addr);
      if Relocated(entries[n - 1].site, loadBase, base) == addr {
        k := n - 1;
      } else {
        k := LastCfiAmong(entries, picked, loadBase, base, addr, n - 1);
      }
    }
  }

  lemma CallersPicked(callers: seq<CfiEntry>) returns (picked: seq<u64>)
    ensures |picked| == |LoadedCfi(callers)|
    ensures forall j :: 0 <= j < |picked| ==> picked[j] == LoadedCfi(callers)[j].site
    ensures Picked(CallerSites(callers), picked)
  {
    hide LoadedCfi, NamedBefore;
    var entries, sites := LoadedCfi(callers), CallerSites(callers);
    picked := seq(|entries|, k requires 0 <= k < |entries| => entries[k].site);
    forall j: nat | LoadedAt(sites, j) ensures PickedAs(sites, picked, j) {
      CallerLoaded(callers, j);
    }
    CallerLoaded(callers, 0);
  }

  /** The range that decides is that of the last entry loaded for the site. */
  lemma LastCfiEntry(callers: seq<CfiEntry>, loadBase: u64, base: u64, addr: u64) returns (i: nat)
    ensures
      var entries := LoadedCfi(callers);
      var r := LastCfiAt(entries, loadBase, base, |entries|, addr);
      if r.None? then forall j: nat :: !LastFor(CallerSites(callers), loadBase, base, addr, j)
      else LastFor(CallerSites(callers), loadBase, base, addr, i) && i < |callers| && r.value == callers[i]
  {
    hide Relocated, RunsAt, LoadedCfi, LastCfiAt, LastFor, LastAmong, NamedBefore;
    var entries, sites := LoadedCfi(callers), CallerSites(callers);
    var picked := CallersPicked(callers);
    assert picked[..|entries|] == picked;
    var k := LastCfiAmong(entries, picked, loadBase, base, addr, |entries|);
    i := 0;
    if LastCfiAt(entries, loadBase, base, |entries|, addr).Some? {
      i := LastPicked(sites, picked, loadBase, base, addr, k);
      LastForLoaded(sites, loadBase, base, addr, i);
      CallerLoaded(callers, i);
    } else {
      forall j: nat ensures !LastFor(sites, loadBase, base, addr, j) {
        NonePicked(sites, picked, loadBase, base, addr, j);
      }
    }
  }

  lemma WithinIs(e: CfiEntry, loadBase: u64, base: u64, stack: seq<u64>)
    ensures CallerWithin(e, loadBase, base, stack) <==> CallerOk(RangeOf(e, loadBase), base, stack)
  {
    SubIs(e.func, loadBase);
    if |stack| >= 2 { SubIs(stack[1], base); }
  }

  lemma OffsetRunsAt(site: u64, loadBase: u64, base: u64, addr: u64)
    ensures RunsAt(site, loadBase, base, addr) <==> RuntimeOffset(site, loadBase) == OffsetIn(base, addr)
  {
    hide RunsAt, Relocated, RuntimeOffset, OffsetIn;
    RelocatedIs(site, loadBase, base, addr);
    RelocatedRunsAt(site, loadBase, base, addr);
  }

  lemma OffsetInjective(a: u64, b: u64, loadBase: u64)
    requires RuntimeOffset(a, loadBase) == RuntimeOffset(b, loadBase)
    ensures a == b
  {
  }

  lemma SitesNext(sites: seq<u64>, i: nat)
    requires i < |sites|
    ensures SitesBefore(sites, i + 1) == SitesBefore(sites, i) + if LoadedAt(sites, i) then {sites[i]} else {}
  {
  }

  /** The offsets are those of the sites, and as many. */
  ghost predicate OffsetsOf(sites: set<u64>, offsets: set<u64>, loadBase: u64) {
    |sites| == |offsets| && forall x: u64 :: x in sites <==> RuntimeOffset(x, loadBase) in offsets
  }

  lemma OffsetsNext(sites: set<u64>, offsets: set<u64>, loadBase: u64, x: u64)
    requires OffsetsOf(sites, offsets, loadBase)
    ensures OffsetsOf(sites + {x}, offsets + {RuntimeOffset(x, loadBase)}, loadBase)
  {
    hide RuntimeOffset;
    var o := RuntimeOffset(x, loadBase);
    if x in sites {
      assert sites + {x} == sites && offsets + {o} == offsets;
    } else {
      forall y: u64 | RuntimeOffset(y, loadBase) == o ensures y == x {
        OffsetInjective(y, x, loadBase);
      }
    }
  }

  /** As many different sites come before an entry as different offsets. */
  lemma {:induction false} SitesAreOffsets(callers: seq<CfiEntry>, loadBase: u64, i: nat)
    requires i <= |callers| && NamedBefore(CallerSites(callers), i) <= |LoadedCfi(callers)|
    ensures
      var n := NamedBefore(CallerSites(callers), i);
      OffsetsOf(SitesBefore(CallerSites(callers), i), CfiOffsets(LoadedCfi(callers), loadBase, n), loadBase)
  {
    hide LoadedCfi, RuntimeOffset, SitesBefore, CallerSites, OffsetsOf;
    var sites := CallerSites(callers);
    if i == 0 {
      NoSites(sites);
      assert OffsetsOf({}, {}, loadBase) by { OffsetsNone(loadBase); }
    } else {
      SitesAreOffsets(callers, loadBase, i - 1);
      SitesNext(sites, i - 1);
      CallerLoaded(callers, i - 1);
      if sites[i - 1] != 0 {
        var n := NamedBefore(sites, i - 1);
        OffsetsNext(SitesBefore(sites, i - 1), CfiOffsets(LoadedCfi(callers), loadBase, n), loadBase, sites[i - 1]);
      } else {
        assert SitesBefore(sites, i) == SitesBefore(sites, i - 1);
      }
    }
  }

  lemma OffsetsNone(loadBase: u64)
    ensures OffsetsOf({}, {}, loadBase)
  {
  }

  lemma NoSites(sites: seq<u64>)
    ensures SitesBefore(sites, 0) == {}
  {
  }

  lemma CallerKeptIff(callers: seq<CfiEntry>, loadBase: u64, base: u64, addr: u64)
    ensures CallerKept(CallerSites(callers), loadBase, base, addr) <==>
      CfiKept(LoadedCfi(callers), loadBase, |LoadedCfi(callers)|, OffsetIn(base, addr))
  {
    hide RunsAt, LoadedCfi, SitesBefore, CfiOffsets, NamedBefore, RuntimeOffset, OffsetIn;
    var entries, sites := LoadedCfi(callers), CallerSites(callers);
    if i: nat :| LoadedAt(sites, i) && RunsAt(sites[i], loadBase, base, addr) && |SitesBefore(sites, i)| < 1024 {
      CallerLoaded(callers, i);
      SitesAreOffsets(callers, loadBase, i);
      OffsetRunsAt(sites[i], loadBase, base, addr);
      var k := NamedBefore(sites, i);
      assert 0 <= k < |entries| && RuntimeOffset(entries[k].site, loadBase) == OffsetIn(base, addr)
             && |CfiOffsets(entries, loadBase, k)| < CFI_CAPACITY;
    }
    if k :| 0 <= k < |entries| && RuntimeOffset(entries[k].site, loadBase) == OffsetIn(base, addr)
            && |CfiOffsets(entries, loadBase, k)| < CFI_CAPACITY {
      CallerLoaded(callers, 0);
      var i := NamedAt(sites, |sites|, k);
      CallerLoaded(callers, i);
      SitesAreOffsets(callers, loadBase, i);
      OffsetRunsAt(sites[i], loadBase, base, addr);
    }
  }

  /** The caller map and its ranges allow a caller exactly when the entries of the section do. */
  lemma CallerAllowedIff(callers: seq<CfiEntry>, loadBase: u64, base: u64, addr: u64, stack: seq<u64>)
    ensures CallerAllowed(callers, loadBase, base, addr, stack) <==>
      CallerChecked(LoadedCfi(callers), loadBase, base, addr, stack)
  {
    hide LoadedCfi, LastCfiAt, LastFor, CallerKept, CfiKept, CallerWithin, CallerOk, RangeOf, OffsetIn;
    CallerKeptIff(callers, loadBase, base, addr);
    var i := LastCfiEntry(callers, loadBase, base, addr);
    if i < |callers| {
      WithinIs(callers[i], loadBase, base, stack);
    }
    forall j: nat | LastFor(CallerSites(callers), loadBase, base, addr, j)
                    && LastFor(CallerSites(callers), loadBase, base, addr, i)
      ensures j == i
    {
      LastForUnique(CallerSites(callers), loadBase, base, addr, i, j);
    }
  }

  /** The frames of the stack that the hook looks at are all in known modules. */
  predicate StackKnown(vma: u64 -> Option<Value>, stack: seq<u64>) {
    forall i :: 1 <= i < 8 && i < |stack| ==> vma(stack[i]).Some?
  }

  /** From the sections of the binary and the modules loaded to the decision, in
      terms of the entries of the sections alone: the last entry loaded for the
      site allows the number, and a site the caller map keeps is called from the
      function of its last entry. The hook looks the site up in the trie that
      the loader filled, in which it is missing only if the trie ran full. The
      site lies in the main module, load `i`, whose block no later load reuses.
    */
  lemma {:induction false} EndToEnd(cfg: Config, maps: Maps, c: Call, m: VmaMap, i: nat, loadBase: u64,
                                    section: seq<PolicyEntry>, callers: seq<CfiEntry>, site: u64)
    requires Enforced(cfg, maps, c) && m.Valid() && site == (c.rip.value - 2) % WORD64
    requires i < |m.loads| && m.loads[i].id == MODULE_MAIN && m.loads[i].low <= site < m.loads[i].high
    requires forall j :: i < j < |m.loads| ==> !Covers(m.loads[j], site)
    requires IsLookup(m.trie, site, maps.vma(site)) && MODULE_MAIN in maps.registry
    requires maps.registry[MODULE_MAIN] == PolicyMap(LoadedRules(section), loadBase, |LoadedRules(section)|)
    requires maps.cfi == CfiMap(LoadedCfi(callers), loadBase, |LoadedCfi(callers)|)
    ensures m.complete ==> maps.vma(site).Some?
    ensures
      var base := m.loads[i].base;
      !Check(cfg, maps, c).Denied? <==>
        || cfg.learn
        || (&& maps.vma(site).Some?
            && NumberAllowed(section, loadBase, base, site, c.nr)
            && CallerAllowed(callers, loadBase, base, site, c.stack)
            && ThreadOk(maps, c)
            && (cfg.shadow && |c.stack| >= 2 ==> StackKnown(maps.vma, c.stack)))
  {
    hide PolicyMap, CfiMap, IsLookup, Check, CallerChecked, CallerAllowed, NumberAllowed, LastRuleAt, LoadedRules;
    hide Covers, ThreadOk, LoadedCfi;
    SubIs(c.rip.value, 2);
    var base := m.loads[i].base;
    ModuleResolves(m, i, site, maps.vma(site));
    if maps.vma(site).None? {
      UnknownDenied(cfg, maps, c);
    } else {
      NotDeniedIff(cfg, maps, c, base, loadBase, LoadedRules(section), LoadedCfi(callers));
      NumberAllowedIff(section, loadBase, base, site, c.nr);
      CallerAllowedIff(callers, loadBase, base, site, c.stack);
    }
  }

  /** A call the hook does not look at: of an untracked process it is denied if
      and only if enforcement is system-wide and the number is not on the
      fallback list, of a tracked one only if it has no registers to look at
      and its cgroup, where that counts, is enforced.
    */
  lemma UnenforcedDeniedIff(cfg: Config, maps: Maps, c: Call)
    requires !Enforced(cfg, maps, c)
    ensures Check(cfg, maps, c).Denied? <==>
      if c.tgid in maps.tracked then !cfg.cgroupFilter || c.cgroup in maps.cgroups
      else cfg.systemWide && c.nr !in maps.fallback
    ensures c.tgid !in maps.tracked || (cfg.cgroupFilter && c.cgroup !in maps.cgroups) ==>
      Check(cfg, maps, c) in {Skipped, Denied(Fallback)}
  {
  }

  lemma UnknownDenied(cfg: Config, maps: Maps, c: Call)
    requires Enforced(cfg, maps, c) && maps.vma(Site(c.rip.value)).None?
    ensures Check(cfg, maps, c).Denied? <==> !cfg.learn
  {
  }

  // ------------------------------------------------------- past the caller map's capacity

  const MAIN_BASE: u64 := 0x40_0000

  /** The site with an offset in a program linked and loaded at 0x400000. */
  function SiteAt(offset: nat): u64
    requires offset < BLOCK_SIZE
  {
    MAIN_BASE + offset
  }

  /** Caller entries for the sites at offsets 1, 2, 3 and so on. */
  function Crowd(n: nat): (entries: seq<CfiEntry>)
    requires n < BLOCK_SIZE
    ensures |entries| == n && forall i :: 0 <= i < n ==> entries[i] == CfiEntry(SiteAt(i + 1), MAIN_BASE, 1)
  {
    seq(n, i requires 0 <= i < n => CfiEntry(SiteAt(i + 1), MAIN_BASE, 1))
  }

  /** All of them name a site, and the table holds them. */
  lemma {:induction false} CrowdNamed(total: nat, n: nat)
    requires n <= total < BLOCK_SIZE
    ensures NamedCfi(Crowd(total)[..n]) == Crowd(total)[..n]
  {
    if n > 0 {
      CrowdNamed(total, n - 1);
      assert Crowd(total)[..n][..n - 1] == Crowd(total)[..n - 1];
    }
  }

  lemma CrowdLoaded(n: nat)
    requires n <= MAX_POLICY_ENTRIES
    ensures LoadedCfi(Crowd(n)) == Crowd(n)
  {
    CrowdNamed(n, n);
    assert Crowd(n)[..n] == Crowd(n);
  }

  lemma MainOffset(x: nat)
    requires x < BLOCK_SIZE
    ensures RuntimeOffset(SiteAt(x), MAIN_BASE) == x == OffsetIn(MAIN_BASE, SiteAt(x))
  {
    ModShift(x, WORD64, 1);
    DivModUnique(x, WORD64, 0, x);
  }

  lemma {:induction false} CrowdOffsets(total: nat, n: nat)
    requires n <= total < BLOCK_SIZE - 1
    ensures |CfiOffsets(Crowd(total), MAIN_BASE, n)| == n
    ensures forall k :: k in CfiOffsets(Crowd(total), MAIN_BASE, n) <==> 0 < k <= n
  {
    hide RuntimeOffset, SiteAt;
    if n > 0 {
      CrowdOffsets(total, n - 1);
      MainOffset(n);
      var before := CfiOffsets(Crowd(total), MAIN_BASE, n - 1);
      assert CfiOffsets(Crowd(total), MAIN_BASE, n) == before + {n} && n !in before;
    }
  }

  const LATE_SITE := CFI_CAPACITY + 1

  /** The last of 1025 sites is named but not kept. */
  lemma LateSiteRefused()
    ensures !CfiKept(Crowd(LATE_SITE), MAIN_BASE, LATE_SITE, LATE_SITE)
    ensures LastCfi(Crowd(LATE_SITE), MAIN_BASE, LATE_SITE, LATE_SITE).Some?
  {
    hide RuntimeOffset, CfiOffsets;
    var entries := Crowd(LATE_SITE);
    forall i | 0 <= i < LATE_SITE && RuntimeOffset(entries[i].site, MAIN_BASE) == LATE_SITE
      ensures |CfiOffsets(entries, MAIN_BASE, i)| >= CFI_CAPACITY
    {
      MainOffset(i + 1);
      CrowdOffsets(LATE_SITE, i);
    }
    MainOffset(LATE_SITE);
  }

  function LateCall(nr: u32): Call {
    Call(1, 1, 0, Some(SiteAt(LATE_SITE) + 2), nr, [])
  }

  /** The entry for the last site demands a caller. */
  lemma LateSiteDemands()
    ensures
      var entries := LoadedCfi(Crowd(LATE_SITE));
      var cfi := LastCfiAt(entries, MAIN_BASE, MAIN_BASE, |entries|, SiteAt(LATE_SITE));
      cfi.Some? && !CallerOk(RangeOf(cfi.value, MAIN_BASE), MAIN_BASE, [])
  {
    hide RuntimeOffset, OffsetIn, RangeOf, CfiKept, LoadedCfi;
    CrowdLoaded(LATE_SITE);
    LateSiteRefused();
    MainOffset(LATE_SITE);
    LastCfiRelocated(Crowd(LATE_SITE), MAIN_BASE, MAIN_BASE, LATE_SITE, SiteAt(LATE_SITE));
  }

  /** The caller map does not keep the last site, so no caller is checked. */
  lemma LateSiteUnchecked()
    ensures CallerChecked(LoadedCfi(Crowd(LATE_SITE)), MAIN_BASE, MAIN_BASE, SiteAt(LATE_SITE), [])
  {
    hide RuntimeOffset, OffsetIn, RangeOf, CfiKept, LoadedCfi, LastCfiAt;
    CrowdLoaded(LATE_SITE);
    LateSiteRefused();
    MainOffset(LATE_SITE);
  }

  lemma LateRule()
    ensures
      var rules := LoadedRules([PolicyEntry(SiteAt(LATE_SITE), 0)]);
      LastRuleAt(rules, MAIN_BASE, MAIN_BASE, |rules|, SiteAt(LATE_SITE)) == Some(Rule(SiteAt(LATE_SITE), -1))
  {
    hide RuntimeOffset, OffsetIn, Relocated;
    var section := [PolicyEntry(SiteAt(LATE_SITE), 0)];
    assert section[..0] == [] && Parsed([]) == [];
    assert LoadedRules(section) == [Rule(SiteAt(LATE_SITE), -1)];
    MainOffset(LATE_SITE);
    RelocatedIs(SiteAt(LATE_SITE), MAIN_BASE, MAIN_BASE, SiteAt(LATE_SITE));
  }

  /** The loader fills its maps from a wildcard rule and 1025 caller entries, and
      a call is made from the last site with no caller at all: it passes,
      although the entry for its site demands one.
    */
  method BadCallerAllowed(nr: u32) returns (verdict: Verdict)
    ensures !verdict.Denied?
    ensures
      var entries := LoadedCfi(Crowd(LATE_SITE));
      var cfi := LastCfiAt(entries, MAIN_BASE, MAIN_BASE, |entries|, SiteAt(LATE_SITE));
      cfi.Some? && !CallerOk(RangeOf(cfi.value, MAIN_BASE), MAIN_BASE, LateCall(nr).stack)
  {
    hide PolicyMap, CfiMap, LoadedCfi, LoadedRules, LastRuleAt, LastCfiAt, Check, CallerChecked, IsLookup, EntryFor;
    hide Crowd, RangeOf, CallerOk, EntriesAre, BlockTrie, NumberAllowed, CallerAllowed;
    var m := new VmaMap();
    var count := m.PopulateModule(Load(MAIN_BASE, MAIN_BASE + BLOCK_SIZE, MODULE_MAIN, MAIN_BASE));
    var section, callers := [PolicyEntry(SiteAt(LATE_SITE), 0)], Crowd(LATE_SITE);
    var rules := ParseSection(section);
    var policy, loaded := PopulatePolicy(rules, MAIN_BASE);
    var entries := ParseCfiSection(callers);
    var cfi := PopulateCfi(entries, MAIN_BASE);
    var trie := m.trie;
    var maps := Maps({1}, {}, {}, (a: u64) => EntryFor(trie, a), map[MODULE_MAIN := policy], map[], cfi);
    var cfg := Config(false, false, false, false);
    verdict := Check(cfg, maps, LateCall(nr));

    LateRule();
    LateSiteDemands();
    LateSiteUnchecked();
    EntryIsLookup(trie, SiteAt(LATE_SITE));
    NumberAllowedIff(section, MAIN_BASE, MAIN_BASE, SiteAt(LATE_SITE), nr);
    CallerAllowedIff(callers, MAIN_BASE, MAIN_BASE, SiteAt(LATE_SITE), []);
    EndToEnd(cfg, maps, LateCall(nr), m, 0, MAIN_BASE, section, callers, SiteAt(LATE_SITE));
  }
}

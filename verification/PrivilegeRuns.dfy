/** The privilege monitor over runs of any length: what the cache reports once
    the 32-bit scan counter has wrapped, and exactly when that is what an
    unbounded record would report.
  */
module PrivilegeRuns {
  import opened Bits
  import opened Common
  import opened PrivilegeBaseline

  // ------------------------------------------------------- the scan that saw a process

  /** The number of the last scan that saw each process. */
  type LastSeen = map<u32, nat>

  function SeenStep(l: LastSeen, k: nat, p: Process): LastSeen {
    if IsMonitored(p) then l[p.pid := k] else l
  }

  function SeenAfter(l: LastSeen, k: nat, procs: seq<Process>, n: nat): LastSeen
    requires n <= |procs|
  {
    if n == 0 then l else SeenStep(SeenAfter(l, k, procs, n - 1), k, procs[n - 1])
  }

  function LastScan(scans: seq<seq<Process>>): LastSeen {
    if scans == [] then map[]
    else
      var n := |scans| - 1;
      SeenAfter(LastScan(scans[..n]), |scans|, scans[n], |scans[n]|)
  }

  // ----------------------------------------------------------- entries are never wrong

  predicate UpToDate(e: Entry, m: Record, l: LastSeen) {
    e.pid in m && e.pid in l && m[e.pid] == Creds(e.euid, e.caps) && e.generation == l[e.pid] % WORD32
  }

  /** Whatever the cache holds is the last observation, marked with the low 32
      bits of its scan.
    */
  ghost predicate Tracked(t: seq<Entry>, m: Record, l: LastSeen) {
    && |t| == MAX_PRIV_BASELINE
    && Unique(t)
    && m.Keys == l.Keys
    && forall i :: 0 <= i < |t| && t[i].used ==> UpToDate(t[i], m, l)
  }

  lemma TrackedStep(t: seq<Entry>, m: Record, l: LastSeen, k: nat, p: Process)
    requires Tracked(t, m, l)
    ensures Tracked(CacheStep(t, k % WORD32, p), RecordStep(m, p), SeenStep(l, k, p))
  {
    StepUnique(t, k % WORD32, p);
    SlotIsOwn(t, p.pid);
    hide Unique, SlotFor;
  }

  lemma {:induction false} TrackedScan(t: seq<Entry>, m: Record, l: LastSeen, k: nat, procs: seq<Process>, n: nat)
    requires Tracked(t, m, l) && n <= |procs|
    ensures Tracked(CacheAfter(t, k % WORD32, procs, n), RecordAfter(m, procs, n), SeenAfter(l, k, procs, n))
  {
    hide Tracked, CacheStep, RecordStep, SeenStep;
    assert |t| == MAX_PRIV_BASELINE by { TrackedSize(t, m, l); }
    if n > 0 {
      TrackedScan(t, m, l, k, procs, n - 1);
      TrackedStep(CacheAfter(t, k % WORD32, procs, n - 1), RecordAfter(m, procs, n - 1), SeenAfter(l, k, procs, n - 1),
                  k, procs[n - 1]);
    }
  }

  lemma TrackedSize(t: seq<Entry>, m: Record, l: LastSeen)
    requires Tracked(t, m, l)
    ensures |t| == MAX_PRIV_BASELINE && m.Keys == l.Keys && Unique(t)
  {
  }

  lemma {:induction false} TrackedRun(t: seq<Entry>, scans: seq<seq<Process>>)
    requires Empty(t)
    ensures Tracked(CacheOf(t, scans), RecordOf(scans), LastScan(scans))
    decreases |scans|
  {
    hide CacheAfter, RecordAfter, SeenAfter;
    if scans != [] {
      var n := |scans| - 1;
      TrackedRun(t, scans[..n]);
      TrackedScan(CacheOf(t, scans[..n]), RecordOf(scans[..n]), LastScan(scans[..n]), |scans|, scans[n], |scans[n]|);
    }
  }

  /** The cache has an entry for the process. */
  predicate Held(t: seq<Entry>, pid: u32) {
    FindFrom(t, pid, 0) < |t|
  }

  /** What the cache reports, entry or none. */
  lemma HeldFinding(t: seq<Entry>, m: Record, l: LastSeen, p: Process)
    requires Tracked(t, m, l)
    ensures Held(t, p.pid) ==> p.pid in l
    ensures CacheFinding(t, p) ==
      if Held(t, p.pid) && l[p.pid] % WORD32 != 0 then RecordFinding(m, p) else NOTHING
  {
    hide Unique;
    if Held(t, p.pid) {
      assert UpToDate(t[FindFrom(t, p.pid, 0)], m, l);
    }
  }

  // ---------------------------------------------------------------- runs of any length

  /** The cache as the next scan comes to its process `j`. */
  function CacheAt(t: seq<Entry>, scans: seq<seq<Process>>, procs: seq<Process>, j: nat): (r: seq<Entry>)
    requires |t| > 0 && j <= |procs|
    ensures |r| == |t|
  {
    CacheAfter(CacheOf(t, scans), (|scans| + 1) % WORD32, procs, j)
  }

  function RecordAt(scans: seq<seq<Process>>, procs: seq<Process>, j: nat): Record
    requires j <= |procs|
  {
    RecordAfter(RecordOf(scans), procs, j)
  }

  function SeenAt(scans: seq<seq<Process>>, procs: seq<Process>, j: nat): LastSeen
    requires j <= |procs|
  {
    SeenAfter(LastScan(scans), |scans| + 1, procs, j)
  }

  /** Over every run, of any number of scans of any size: the cache reports what
      the unbounded record would if it holds the process and the scan that last
      saw it has a number that is not a multiple of 2^32, and nothing otherwise.
    */
  lemma CacheOverRuns(t: seq<Entry>, scans: seq<seq<Process>>, procs: seq<Process>, j: nat)
    requires Empty(t) && j < |procs|
    ensures
      var pid, cache, seen := procs[j].pid, CacheAt(t, scans, procs, j), SeenAt(scans, procs, j);
      && (Held(cache, pid) ==> pid in seen)
      && CacheFinding(cache, procs[j]) ==
           if Held(cache, pid) && seen[pid] % WORD32 != 0 then RecordFinding(RecordAt(scans, procs, j), procs[j])
           else NOTHING
  {
    hide Tracked, CacheAfter, RecordAfter, SeenAfter, CacheOf, RecordOf, LastScan, Held, CacheFinding, RecordFinding;
    TrackedRun(t, scans);
    TrackedScan(CacheOf(t, scans), RecordOf(scans), LastScan(scans), |scans| + 1, procs, j);
    HeldFinding(CacheAt(t, scans, procs, j), RecordAt(scans, procs, j), SeenAt(scans, procs, j), procs[j]);
  }

  // ----------------------------------------------------------- what a report means

  /** Every observation of a run, in order. */
  function Observed(scans: seq<seq<Process>>): seq<Process> {
    if scans == [] then [] else Observed(scans[..|scans| - 1]) + scans[|scans| - 1]
  }

  /** `q` is the last observation of a user process with the given number. */
  ghost predicate LastOf(h: seq<Process>, pid: u32, q: Process) {
    exists i :: 0 <= i < |h| && h[i] == q && IsOf(q, pid) && forall k :: i < k < |h| ==> !IsOf(h[k], pid)
  }

  predicate IsOf(q: Process, pid: u32) {
    q.pid == pid && pid > 1 && q.mm != 0
  }

  lemma LastOfNext(h: seq<Process>, p: Process, pid: u32, q: Process)
    ensures LastOf(h + [p], pid, q) <==> if IsOf(p, pid) then q == p else LastOf(h, pid, q)
  {
    if IsOf(p, pid) && q == p {
      assert (h + [p])[|h|] == q;
    }
    if !IsOf(p, pid) && LastOf(h, pid, q) {
      var i :| 0 <= i < |h| && h[i] == q && IsOf(q, pid) && forall k :: i < k < |h| ==> !IsOf(h[k], pid);
      assert (h + [p])[i] == q;
    }
    if !IsOf(p, pid) && LastOf(h + [p], pid, q) {
      var i :| 0 <= i < |h + [p]| && (h + [p])[i] == q && IsOf(q, pid)
               && forall k :: i < k < |h + [p]| ==> !IsOf((h + [p])[k], pid);
      assert h[i] == q && forall k :: i < k < |h| ==> h[k] == (h + [p])[k];
    }
    if IsOf(p, pid) && LastOf(h + [p], pid, q) {
      assert IsOf((h + [p])[|h|], pid);
    }
  }

  /** The record says what the last observation of each process was. */
  ghost predicate Recalls(m: Record, h: seq<Process>) {
    forall pid: u32, q: Process :: LastOf(h, pid, q) ==> pid in m && m[pid] == Creds(q.euid, q.caps)
  }

  ghost predicate RecallsOnly(m: Record, h: seq<Process>) {
    forall pid: u32 :: pid in m ==> exists q :: LastOf(h, pid, q)
  }

  lemma RecallsNext(m: Record, h: seq<Process>, p: Process)
    requires Recalls(m, h) && RecallsOnly(m, h)
    ensures Recalls(RecordStep(m, p), h + [p]) && RecallsOnly(RecordStep(m, p), h + [p])
  {
    hide LastOf;
    forall pid: u32, q: Process | LastOf(h + [p], pid, q)
      ensures pid in RecordStep(m, p) && RecordStep(m, p)[pid] == Creds(q.euid, q.caps)
    {
      LastOfNext(h, p, pid, q);
    }
    forall pid: u32 | pid in RecordStep(m, p) ensures exists q :: LastOf(h + [p], pid, q) {
      if IsOf(p, pid) {
        LastOfNext(h, p, pid, p);
      } else {
        var q :| LastOf(h, pid, q);
        LastOfNext(h, p, pid, q);
      }
    }
  }

  lemma {:induction false} RecallsScan(m: Record, h: seq<Process>, procs: seq<Process>, n: nat)
    requires Recalls(m, h) && RecallsOnly(m, h) && n <= |procs|
    ensures Recalls(RecordAfter(m, procs, n), h + procs[..n]) && RecallsOnly(RecordAfter(m, procs, n), h + procs[..n])
  {
    hide Recalls, RecallsOnly, RecordStep;
    if n == 0 {
      assert h + procs[..0] == h;
    } else {
      RecallsScan(m, h, procs, n - 1);
      RecallsNext(RecordAfter(m, procs, n - 1), h + procs[..n - 1], procs[n - 1]);
      assert h + procs[..n - 1] + [procs[n - 1]] == h + procs[..n];
    }
  }

  lemma {:induction false} RecallsRun(scans: seq<seq<Process>>)
    ensures Recalls(RecordOf(scans), Observed(scans)) && RecallsOnly(RecordOf(scans), Observed(scans))
    decreases |scans|
  {
    if scans != [] {
      hide Recalls, RecallsOnly, RecordAfter;
      var n := |scans| - 1;
      RecallsRun(scans[..n]);
      RecallsScan(RecordOf(scans[..n]), Observed(scans[..n]), scans[n], |scans[n]|);
      assert scans[n][..|scans[n]|] == scans[n];
    }
  }

  predicate IsBit(b: bv64) {
    b != 0 && b & (b - 1) == 0
  }

  predicate SetSince(now: bv64, was: bv64, b: bv64) {
    now & b != 0 && was & b == 0
  }

  /** Some bit is set now that was not set before. */
  ghost predicate Gains(now: bv64, was: bv64) {
    exists b :: IsBit(b) && SetSince(now, was, b)
  }

  lemma GainsIff(now: bv64, was: bv64)
    ensures Gains(now, was) <==> now & !was != 0
  {
    hide IsBit, SetSince;
    var x := now & !was;
    if x != 0 {
      var b := LowestBit(x);
      NewBit(now, was, x, b);
    }
    if b :| IsBit(b) && SetSince(now, was, b) {
      SetSinceDiffers(now, was, b);
    }
  }

  lemma LowestBit(x: bv64) returns (b: bv64)
    requires x != 0
    ensures IsBit(b) && b != 0 && x & b == b
  {
    b := x & (!x + 1);
  }

  lemma NewBit(now: bv64, was: bv64, x: bv64, b: bv64)
    requires x == now & !was && b != 0 && x & b == b
    ensures SetSince(now, was, b)
  {
    assert now & b == b;
    assert was & b == 0;
  }

  lemma SetSinceDiffers(now: bv64, was: bv64, b: bv64)
    requires SetSince(now, was, b)
    ensures now & !was != 0
  {
  }

  predicate Trusted(comm: string) {
    comm == "sudo" || comm == "su" || comm == "sshd" || comm == "login" || comm == "systemd"
  }

  /** A finding in terms of the credentials on record. */
  ghost function FindingOf(m: Record, p: Process): Finding {
    if IsOf(p, p.pid) && !Trusted(p.comm) && p.pid in m then
      Finding(m[p.pid].euid != 0 && p.euid == 0, Gains(p.caps, m[p.pid].caps))
    else NOTHING
  }

  lemma FindingIs(m: Record, p: Process)
    ensures RecordFinding(m, p) == FindingOf(m, p)
  {
    hide Gains;
    if p.pid in m {
      GainsIff(p.caps, m[p.pid].caps);
    }
  }

  /** Over every run: the record reports a turn to root, or a gain of
      capabilities, if and only if the process is not one of five by name and
      its last observation before differs in just that.
    */
  lemma RecordReportsIff(scans: seq<seq<Process>>, procs: seq<Process>, j: nat)
    requires j < |procs|
    ensures
      var p, h := procs[j], Observed(scans) + procs[..j];
      var f := RecordFinding(RecordAt(scans, procs, j), p);
      && (f.rootTransition <==> IsOf(p, p.pid) && !Trusted(p.comm) && p.euid == 0
                                && exists q :: LastOf(h, p.pid, q) && q.euid != 0)
      && (f.capsExpanded <==> IsOf(p, p.pid) && !Trusted(p.comm)
                              && exists q :: LastOf(h, p.pid, q) && Gains(p.caps, q.caps))
  {
    hide RecordAfter, RecordOf, Observed, LastOf, Gains, RecordFinding;
    var p, h := procs[j], Observed(scans) + procs[..j];
    var m := RecordAt(scans, procs, j);
    RecallsRun(scans);
    RecallsScan(RecordOf(scans), Observed(scans), procs, j);
    assert RecordFinding(m, p) == FindingOf(m, p) by { FindingIs(m, p); }
    if p.pid in m {
      var q :| LastOf(h, p.pid, q);
      assert m[p.pid] == Creds(q.euid, q.caps);
    }
  }

  /** What the monitor's own cache reports, in the same terms: the record's
      reports, for a process it holds whose last scan was not a multiple of 2^32.
    */
  lemma CacheReportsIff(t: seq<Entry>, scans: seq<seq<Process>>, procs: seq<Process>, j: nat)
    requires Empty(t) && j < |procs|
    ensures
      var p, h := procs[j], Observed(scans) + procs[..j];
      var cache, seen := CacheAt(t, scans, procs, j), SeenAt(scans, procs, j);
      var f, told := CacheFinding(cache, p), Held(cache, p.pid) && (p.pid in seen ==> seen[p.pid] % WORD32 != 0);
      && (f.rootTransition <==> told && IsOf(p, p.pid) && !Trusted(p.comm) && p.euid == 0
                                && exists q :: LastOf(h, p.pid, q) && q.euid != 0)
      && (f.capsExpanded <==> told && IsOf(p, p.pid) && !Trusted(p.comm)
                              && exists q :: LastOf(h, p.pid, q) && Gains(p.caps, q.caps))
  {
    hide CacheAt, RecordAt, SeenAt, Observed, LastOf, Gains, Held, RecordFinding, CacheFinding;
    RecordReportsIff(scans, procs, j);
    CacheOverRuns(t, scans, procs, j);
  }

  // -------------------------------------------------------- as long as everybody fits

  /** Every process on record is in the cache. */
  ghost predicate AllHeld(t: seq<Entry>, m: Record) {
    forall pid :: pid in m ==> Held(t, pid)
  }

  lemma RecordGrows(m: Record, p: Process)
    ensures |m| <= |RecordStep(m, p)|
    ensures RecordStep(m, p).Keys == if IsMonitored(p) then m.Keys + {p.pid} else m.Keys
  {
    SubsetCount(m.Keys, RecordStep(m, p).Keys);
    assert |m| == |m.Keys| && |RecordStep(m, p)| == |RecordStep(m, p).Keys|;
  }

  lemma {:induction false} RecordScanGrows(m: Record, procs: seq<Process>, n: nat, k: nat)
    requires n <= k <= |procs|
    ensures |RecordAfter(m, procs, n)| <= |RecordAfter(m, procs, k)|
    decreases k - n
  {
    hide RecordStep;
    if n < k {
      RecordScanGrows(m, procs, n, k - 1);
      RecordGrows(RecordAfter(m, procs, k - 1), procs[k - 1]);
    }
  }

  /** With room for one more, a process that is not held gets a free slot. */
  lemma FreeForNew(t: seq<Entry>, m: Record, l: LastSeen, p: Process)
    requires Tracked(t, m, l) && IsMonitored(p) && |RecordStep(m, p)| <= MAX_PRIV_BASELINE && !Held(t, p.pid)
    ensures !t[SlotFor(t, p.pid)].used
  {
    hide RecordStep, IsMonitored;
    RecordGrows(m, p);
    assert |RecordStep(m, p)| == |RecordStep(m, p).Keys|;
    if FreeFrom(t, 0) == |t| {
      var owners := Elements(OwnerList(t));
      DistinctCount(OwnerList(t));
      assert owners <= m.Keys;
      assert p.pid !in owners by {
        assert forall i :: 0 <= i < |t| ==> !Holds(t[i], p.pid);
      }
      SubsetCount(owners + {p.pid}, m.Keys + {p.pid});
    }
  }

  lemma HeldStep(t: seq<Entry>, m: Record, l: LastSeen, k: nat, p: Process)
    requires Tracked(t, m, l) && AllHeld(t, m) && |RecordStep(m, p)| <= MAX_PRIV_BASELINE
    ensures AllHeld(CacheStep(t, k % WORD32, p), RecordStep(m, p))
  {
    if IsMonitored(p) {
      var i, t' := SlotFor(t, p.pid), CacheStep(t, k % WORD32, p);
      if !Held(t, p.pid) {
        FreeForNew(t, m, l, p);
      }
      hide FindFrom, SlotFor, Tracked;
      forall pid | pid in RecordStep(m, p) ensures Held(t', pid) {
        if pid == p.pid {
          Found(t', pid, i);
        } else {
          StillFound(t, pid, i, t');
        }
      }
    }
  }

  lemma {:induction false} HeldScan(t: seq<Entry>, m: Record, l: LastSeen, k: nat, procs: seq<Process>, n: nat)
    requires Tracked(t, m, l) && AllHeld(t, m) && n <= |procs| && |RecordAfter(m, procs, n)| <= MAX_PRIV_BASELINE
    ensures |t| > 0 && AllHeld(CacheAfter(t, k % WORD32, procs, n), RecordAfter(m, procs, n))
  {
    hide AllHeld, CacheStep, RecordStep;
    TrackedSize(t, m, l);
    if n > 0 {
      RecordGrows(RecordAfter(m, procs, n - 1), procs[n - 1]);
      HeldScan(t, m, l, k, procs, n - 1);
      TrackedScan(t, m, l, k, procs, n - 1);
      HeldStep(CacheAfter(t, k % WORD32, procs, n - 1), RecordAfter(m, procs, n - 1), SeenAfter(l, k, procs, n - 1),
               k, procs[n - 1]);
    }
  }

  lemma {:induction false} HeldRun(t: seq<Entry>, scans: seq<seq<Process>>)
    requires Empty(t) && |RecordOf(scans)| <= MAX_PRIV_BASELINE
    ensures AllHeld(CacheOf(t, scans), RecordOf(scans))
    decreases |scans|
  {
    hide AllHeld, Tracked, CacheAfter, RecordAfter, SeenAfter;
    if scans == [] {
      NoneHeld(t);
    } else {
      var n := |scans| - 1;
      var m := RecordOf(scans[..n]);
      RecordStart(m, scans[n]);
      RecordScanGrows(m, scans[n], 0, |scans[n]|);
      HeldRun(t, scans[..n]);
      TrackedRun(t, scans[..n]);
      HeldScan(CacheOf(t, scans[..n]), m, LastScan(scans[..n]), |scans|, scans[n], |scans[n]|);
    }
  }

  lemma NoneHeld(t: seq<Entry>)
    ensures AllHeld(t, map[])
  {
  }

  lemma RecordStart(m: Record, procs: seq<Process>)
    ensures RecordAfter(m, procs, 0) == m
  {
  }

  /** While no more than 8192 processes have ever been seen, over runs of any
      length: the report is exact, unless the scan that last saw the process
      has a number that is a multiple of 2^32; then it is nothing.
    */
  lemma ExactUnlessWrapped(t: seq<Entry>, scans: seq<seq<Process>>, procs: seq<Process>, j: nat)
    requires Empty(t) && j < |procs| && |RecordAt(scans, procs, j)| <= 8192
    ensures
      var pid, seen := procs[j].pid, SeenAt(scans, procs, j);
      CacheFinding(CacheAt(t, scans, procs, j), procs[j]) ==
        if pid in seen && seen[pid] % WORD32 == 0 then NOTHING else RecordFinding(RecordAt(scans, procs, j), procs[j])
  {
    hide Tracked, CacheAfter, RecordAfter, SeenAfter, CacheOf, RecordOf, LastScan, Held, CacheFinding;
    var m := RecordOf(scans);
    RecordStart(m, procs);
    RecordScanGrows(m, procs, 0, j);
    HeldRun(t, scans);
    TrackedRun(t, scans);
    HeldScan(CacheOf(t, scans), m, LastScan(scans), |scans| + 1, procs, j);
    TrackedScan(CacheOf(t, scans), m, LastScan(scans), |scans| + 1, procs, j);
    TrackedSize(CacheAt(t, scans, procs, j), RecordAt(scans, procs, j), SeenAt(scans, procs, j));
    CacheOverRuns(t, scans, procs, j);
  }

  // ------------------------------------------------------------- the wrap is reachable

  /** `n` scans that find nobody. */
  function Idle(n: nat): (r: seq<seq<Process>>)
    ensures |r| == n && forall i :: 0 <= i < n ==> r[i] == []
  {
    seq(n, _ => [])
  }

  lemma {:induction false} IdleRecord(n: nat)
    ensures RecordOf(Idle(n)) == map[] && LastScan(Idle(n)) == map[]
  {
    if n > 0 {
      assert Idle(n)[..n - 1] == Idle(n - 1);
      IdleRecord(n - 1);
    }
  }

  lemma RecordOfNext(scans: seq<seq<Process>>, procs: seq<Process>)
    ensures RecordOf(scans + [procs]) == RecordAfter(RecordOf(scans), procs, |procs|)
    ensures LastScan(scans + [procs]) == SeenAfter(LastScan(scans), |scans| + 1, procs, |procs|)
  {
    hide RecordAfter, SeenAfter;
    var all := scans + [procs];
    assert all[..|all| - 1] == scans && all[|all| - 1] == procs;
  }

  lemma CacheOfNext(t: seq<Entry>, scans: seq<seq<Process>>, procs: seq<Process>)
    requires |t| > 0
    ensures CacheOf(t, scans + [procs]) == CacheAfter(CacheOf(t, scans), (|scans| + 1) % WORD32, procs, |procs|)
  {
    hide CacheAfter;
    var all := scans + [procs];
    assert all[..|all| - 1] == scans && all[|all| - 1] == procs;
  }

  /** The first process of a scan. */
  lemma FirstStep(t: seq<Entry>, m: Record, g: u32, procs: seq<Process>)
    requires |t| > 0 && procs != []
    ensures CacheAfter(t, g, procs, 1) == CacheStep(t, g, procs[0])
    ensures RecordAfter(m, procs, 1) == RecordStep(m, procs[0])
  {
    hide CacheStep, RecordStep;
    assert CacheAfter(t, g, procs, 0) == t && RecordAfter(m, procs, 0) == m;
  }

  /** One process, first an ordinary user and then root under a name that does
      not explain it.
    */
  predicate BecomesRoot(p: Process, q: Process) {
    && IsMonitored(p) && IsMonitored(q) && p.pid == q.pid
    && p.euid != 0 && q.euid == 0 && !IsLegitimateTransition(q.comm)
  }

  /** The counter wraps to zero on scan 2^32: a process first seen by that scan
      and root in the next is not reported, though the record shows it.
    */
  lemma GenerationWrapForgets(t: seq<Entry>, p: Process, q: Process)
    requires Empty(t) && BecomesRoot(p, q)
    ensures
      var scans := Idle(WORD32 - 1) + [[p]];
      CacheFinding(CacheAt(t, scans, [q], 0), q) == NOTHING && RecordFinding(RecordAt(scans, [q], 0), q).rootTransition
  {
    hide Held, CacheOf, RecordOf, LastScan;
    var idle := Idle(WORD32 - 1);
    var scans := idle + [[p]];
    IdleRecord(WORD32 - 1);
    RecordOfNext(idle, [p]);
    assert RecordOf(scans) == RecordStep(map[], p);
    assert LastScan(scans) == SeenStep(map[], WORD32, p);
    CacheOverRuns(t, scans, [q], 0);
  }

  // ------------------------------------------------------ eviction after the counter wraps

  /** Every slot is taken by an entry of a generation above two. */
  predicate FullAndHigh(t: seq<Entry>) {
    |t| > 0 && forall i :: 0 <= i < |t| ==> t[i].used && t[i].generation > 2
  }

  lemma OldestIs(t: seq<Entry>, n: nat, o: nat)
    requires o < n <= |t| && forall i :: 0 <= i < n && i != o ==> t[o].generation < t[i].generation
    ensures Oldest(t, n) == o
  {
  }

  /** A newcomer of generation one is the first to be evicted from such a cache. */
  lemma NewcomerEvicted(t: seq<Entry>, p: Process, n: Process)
    requires FullAndHigh(t) && IsMonitored(p) && IsMonitored(n) && p.pid != n.pid
    requires forall i :: 0 <= i < |t| ==> t[i].pid != p.pid && t[i].pid != n.pid
    ensures !Held(CacheStep(CacheStep(t, 1, p), 2, n), p.pid)
  {
    var o := SlotFor(t, p.pid);
    var t1 := CacheStep(t, 1, p);
    assert t1 == t[o := Updated(p, 1)];
    OldestIs(t1, |t1|, o);
    assert SlotFor(t1, n.pid) == o;
  }

  /** Processes with consecutive numbers. */
  function Crowd(first: nat, n: nat): (r: seq<Process>)
    requires 2 <= first && first + n <= WORD32
    ensures |r| == n
  {
    seq(n, i requires 0 <= i < n => Process(first + i, 1, 1, 0, "", 1))
  }

  function Numbers(first: nat, n: nat): set<u32>
    requires first + n <= WORD32
  {
    if n == 0 then {} else Numbers(first, n - 1) + {first + n - 1}
  }

  lemma {:induction false} NumbersAre(first: nat, n: nat)
    requires first + n <= WORD32
    ensures |Numbers(first, n)| == n && forall x: u32 :: x in Numbers(first, n) <==> first <= x < first + n
  {
    if n > 0 {
      NumbersAre(first, n - 1);
    }
  }

  lemma NumbersNext(s: set<u32>, first: nat, n: nat)
    requires 0 < n && first + n <= WORD32
    ensures s + Numbers(first, n) == s + Numbers(first, n - 1) + {first + n - 1}
  {
  }

  lemma RecordKeysNext(m: Record, procs: seq<Process>, n: nat)
    requires 0 < n <= |procs| && IsMonitored(procs[n - 1])
    ensures RecordAfter(m, procs, n).Keys == RecordAfter(m, procs, n - 1).Keys + {procs[n - 1].pid}
  {
    hide RecordStep;
    RecordGrows(RecordAfter(m, procs, n - 1), procs[n - 1]);
  }

  lemma CrowdAt(first: nat, total: nat, i: nat)
    requires 2 <= first && first + total <= WORD32 && i < total
    ensures Crowd(first, total)[i].pid == first + i && IsMonitored(Crowd(first, total)[i])
  {
  }

  lemma NoNumbers(s: set<u32>, first: nat)
    requires first <= WORD32
    ensures s + Numbers(first, 0) == s
  {
  }

  lemma {:induction false} CrowdRecorded(m: Record, first: nat, total: nat, n: nat)
    requires 2 <= first && first + total <= WORD32 && n <= total
    ensures RecordAfter(m, Crowd(first, total), n).Keys == m.Keys + Numbers(first, n)
  {
    hide Crowd, RecordAfter, Numbers, IsMonitored;
    var procs := Crowd(first, total);
    if n == 0 {
      RecordStart(m, procs);
      NoNumbers(m.Keys, first);
    } else {
      CrowdRecorded(m, first, total, n - 1);
      CrowdAt(first, total, n - 1);
      RecordKeysNext(m, procs, n);
      NumbersNext(m.Keys, first, n);
    }
  }

  /** A scan marks with its own number, or leaves what was there. */
  lemma {:induction false} SeenValues(l: LastSeen, k: nat, procs: seq<Process>, n: nat)
    requires n <= |procs|
    ensures
      var s := SeenAfter(l, k, procs, n);
      forall pid :: pid in s ==> s[pid] == k || (pid in l && s[pid] == l[pid])
  {
    if n > 0 {
      SeenValues(l, k, procs, n - 1);
    }
  }

  /** 8192 processes, seen by the last two scans before the counter wraps, and
      one scan that finds nobody.
    */
  function CrowdedRun(): (r: seq<seq<Process>>)
    ensures |r| == WORD32
  {
    Idle(WORD32 - 3) + [Crowd(2, MAX_TASK_SNAPSHOT)] + [Crowd(2 + MAX_TASK_SNAPSHOT, MAX_TASK_SNAPSHOT)] + [[]]
  }

  lemma NumbersJoin(first: nat, a: nat, b: nat)
    requires first + a + b <= WORD32
    ensures Numbers(first, a) + Numbers(first + a, b) == Numbers(first, a + b)
  {
    hide Numbers;
    NumbersAre(first, a);
    NumbersAre(first + a, b);
    NumbersAre(first, a + b);
  }

  lemma CrowdedRecord()
    ensures RecordOf(CrowdedRun()).Keys == Numbers(2, MAX_PRIV_BASELINE)
  {
    hide CacheOf, RecordOf, LastScan, RecordAfter, SeenAfter, Crowd, Numbers, CacheAfter;
    var a, b := Crowd(2, MAX_TASK_SNAPSHOT), Crowd(2 + MAX_TASK_SNAPSHOT, MAX_TASK_SNAPSHOT);
    var idle := Idle(WORD32 - 3);
    IdleRecord(WORD32 - 3);
    RecordOfNext(idle, a);
    RecordOfNext(idle + [a], b);
    RecordOfNext(idle + [a] + [b], []);
    CrowdRecorded(RecordOf(idle), 2, MAX_TASK_SNAPSHOT, MAX_TASK_SNAPSHOT);
    CrowdRecorded(RecordOf(idle + [a]), 2 + MAX_TASK_SNAPSHOT, MAX_TASK_SNAPSHOT, MAX_TASK_SNAPSHOT);
    RecordStart(RecordOf(idle + [a] + [b]), []);
    NumbersJoin(2, MAX_TASK_SNAPSHOT, MAX_TASK_SNAPSHOT);
  }

  lemma CrowdedSeen()
    ensures forall pid :: pid in LastScan(CrowdedRun()) ==> WORD32 - 2 <= LastScan(CrowdedRun())[pid] <= WORD32 - 1
  {
    hide CacheOf, RecordOf, LastScan, RecordAfter, SeenAfter, Crowd, CacheAfter;
    var a, b := Crowd(2, MAX_TASK_SNAPSHOT), Crowd(2 + MAX_TASK_SNAPSHOT, MAX_TASK_SNAPSHOT);
    var idle := Idle(WORD32 - 3);
    IdleRecord(WORD32 - 3);
    RecordOfNext(idle, a);
    RecordOfNext(idle + [a], b);
    RecordOfNext(idle + [a] + [b], []);
    SeenValues(LastScan(idle), WORD32 - 2, a, |a|);
    SeenValues(LastScan(idle + [a]), WORD32 - 1, b, |b|);
    SeenStart(LastScan(idle + [a] + [b]), WORD32);
  }

  lemma SeenStart(l: LastSeen, k: nat)
    ensures SeenAfter(l, k, [], 0) == l
  {
  }

  /** The processes of the used entries. */
  function UsedOwners(t: seq<Entry>): set<u32> {
    if t == [] then {}
    else
      var last := t[|t| - 1];
      UsedOwners(t[..|t| - 1]) + if last.used then {last.pid} else {}
  }

  lemma {:induction false} UsedOwnersCount(t: seq<Entry>)
    ensures |UsedOwners(t)| <= |t|
    ensures (exists i :: 0 <= i < |t| && !t[i].used) ==> |UsedOwners(t)| < |t|
  {
    if t != [] {
      var front := t[..|t| - 1];
      UsedOwnersCount(front);
      assert forall i :: 0 <= i < |front| ==> front[i] == t[i];
    }
  }

  lemma {:induction false} HolderIsOwner(t: seq<Entry>, i: nat)
    requires i < |t| && t[i].used
    ensures t[i].pid in UsedOwners(t)
  {
    if i < |t| - 1 {
      HolderIsOwner(t[..|t| - 1], i);
    }
  }

  /** A cache that holds as many processes as it has slots is full. */
  lemma AllHeldFull(t: seq<Entry>, m: Record)
    requires AllHeld(t, m) && |m| >= |t|
    ensures forall i :: 0 <= i < |t| ==> t[i].used
  {
    hide UsedOwners;
    UsedOwnersCount(t);
    assert m.Keys <= UsedOwners(t) by {
      forall pid | pid in m ensures pid in UsedOwners(t) {
        assert Held(t, pid);
        HolderIsOwner(t, FindFrom(t, pid, 0));
      }
    }
    SubsetCount(m.Keys, UsedOwners(t));
    assert |m| == |m.Keys|;
  }

  lemma HighMarks(cache: seq<Entry>, m: Record, l: LastSeen)
    requires Tracked(cache, m, l) && forall i :: 0 <= i < |cache| ==> cache[i].used
    requires forall pid :: pid in l ==> WORD32 - 2 <= l[pid] <= WORD32 - 1
    ensures FullAndHigh(cache) && forall i :: 0 <= i < |cache| ==> cache[i].pid in m.Keys
  {
    hide Unique;
    forall i | 0 <= i < |cache| ensures cache[i].generation > 2 && cache[i].pid in m.Keys {
      assert UpToDate(cache[i], m, l);
    }
  }

  lemma CrowdedCache(t: seq<Entry>)
    requires Empty(t)
    ensures FullAndHigh(CacheOf(t, CrowdedRun()))
    ensures forall i :: 0 <= i < |t| ==> CacheOf(t, CrowdedRun())[i].pid in Numbers(2, MAX_PRIV_BASELINE)
  {
    hide CacheOf, RecordOf, LastScan, CrowdedRun, Numbers, Tracked, AllHeld, FullAndHigh;
    var scans := CrowdedRun();
    var m := RecordOf(scans);
    CrowdedRecord();
    CrowdedSeen();
    assert |m| == MAX_PRIV_BASELINE by {
      NumbersAre(2, MAX_PRIV_BASELINE);
      assert |m| == |m.Keys|;
    }
    HeldRun(t, scans);
    AllHeldFull(CacheOf(t, scans), m);
    TrackedRun(t, scans);
    HighMarks(CacheOf(t, scans), m, LastScan(scans));
  }

  /** The second way to miss a process after the wrap: among the high marks of a
      full cache a newcomer of scan 2^32 + 1 looks oldest, so the next newcomer
      takes its entry, and its turn to root goes unreported although the scan
      before saw it.
    */
  lemma EvictedAfterWrap(t: seq<Entry>, p: Process, q: Process, n: Process)
    requires Empty(t) && BecomesRoot(p, q) && IsMonitored(n) && n.pid != p.pid
    requires p.pid > MAX_PRIV_BASELINE + 1 && n.pid > MAX_PRIV_BASELINE + 1
    ensures
      var scans := CrowdedRun() + [[p]];
      && CacheFinding(CacheAt(t, scans, [n, q], 1), q) == NOTHING
      && RecordFinding(RecordAt(scans, [n, q], 1), q).rootTransition
  {
    hide CacheOf, RecordOf, LastScan, CrowdedRun, Numbers, Held, FullAndHigh;
    hide CacheAfter, RecordAfter, CacheStep, SeenAfter;
    var run := CrowdedRun();
    var scans, procs := run + [[p]], [n, q];
    var cache := CacheOf(t, run);
    CrowdedCache(t);
    NumbersAre(2, MAX_PRIV_BASELINE);
    CacheOfNext(t, run, [p]);
    RecordOfNext(run, [p]);
    FirstStep(cache, RecordOf(run), 1, [p]);
    assert (|scans| + 1) % WORD32 == 2;
    FirstStep(CacheOf(t, scans), RecordOf(scans), 2, procs);
    NewcomerEvicted(cache, p, n);
    CacheOverRuns(t, scans, procs, 1);
  }
}

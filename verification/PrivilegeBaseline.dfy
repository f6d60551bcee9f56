/** The privilege monitor of the process walker: a bounded cache of the
    credentials each process last had, recycled by age, against an unbounded
    record of them.
  */
module PrivilegeBaseline {
  import opened Bits
  import opened Common

  const MAX_TASK_SNAPSHOT: nat := 4096
  const MAX_PRIV_BASELINE: nat := 8192

  /** The parts of a task the monitor looks at. */
  datatype Process = Process(pid: u32, uid: u32, euid: u32, caps: bv64, comm: string, mm: u64)

  datatype Entry = Entry(used: bool, pid: u32, uid: u32, euid: u32, caps: bv64, comm: string, generation: u32)

  /** What the monitor reports about a process in one scan. */
  datatype Finding = Finding(rootTransition: bool, capsExpanded: bool)

  const NOTHING := Finding(false, false)

  predicate IsLegitimateTransition(comm: string) {
    comm in {"sudo", "su", "sshd", "login", "systemd"}
  }

  /** Kernel threads and init are not monitored. */
  predicate IsMonitored(p: Process) {
    p.pid > 1 && p.mm != 0
  }

  /** Comparing a process with credentials it had before. */
  function Compare(euid: u32, caps: bv64, p: Process): Finding {
    if IsLegitimateTransition(p.comm) then NOTHING
    else Finding(euid != 0 && p.euid == 0, p.caps & !caps != 0)
  }

  // ------------------------------------------------------------ the bounded cache

  predicate Holds(e: Entry, pid: u32) {
    e.used && e.pid == pid
  }

  /** The first of the slots from `i` on that holds a process, else the table's size. */
  function FindFrom(t: seq<Entry>, pid: u32, i: nat): (r: nat)
    requires i <= |t|
    ensures i <= r <= |t|
    ensures forall j :: i <= j < r ==> !Holds(t[j], pid)
    ensures r < |t| ==> Holds(t[r], pid)
    decreases |t| - i
  {
    if i == |t| || Holds(t[i], pid) then i else FindFrom(t, pid, i + 1)
  }

  /** The first unused slot from `i` on, else the table's size. */
  function FreeFrom(t: seq<Entry>, i: nat): (r: nat)
    requires i <= |t|
    ensures i <= r <= |t|
    ensures forall j :: i <= j < r ==> t[j].used
    ensures r < |t| ==> !t[r].used
    decreases |t| - i
  {
    if i == |t| || !t[i].used then i else FreeFrom(t, i + 1)
  }

  /** The first slot with the lowest generation among the first `n`. */
  function Oldest(t: seq<Entry>, n: nat): (r: nat)
    requires 0 < n <= |t|
    ensures r < n && forall j :: 0 <= j < n ==> t[r].generation <= t[j].generation
    ensures forall j :: 0 <= j < r ==> t[r].generation < t[j].generation
  {
    if n == 1 then 0
    else
      var r := Oldest(t, n - 1);
      if t[n - 1].generation < t[r].generation then n - 1 else r
  }

  /** The slot a process gets: its own, else a free one, else the oldest. */
  function SlotFor(t: seq<Entry>, pid: u32): (r: nat)
    requires |t| > 0
    ensures r < |t|
  {
    var f := FindFrom(t, pid, 0);
    if f < |t| then f
    else
      var free := FreeFrom(t, 0);
      if free < |t| then free else Oldest(t, |t|)
  }

  /** The slot's entry when the process is looked at: a reset one if claimed. */
  function Looked(e: Entry, pid: u32): Entry {
    if Holds(e, pid) then e else Entry(true, pid, 0, 0, 0, "", 0)
  }

  function Updated(p: Process, generation: u32): Entry {
    Entry(true, p.pid, p.uid, p.euid, p.caps, p.comm, generation)
  }

  function Judged(e: Entry, p: Process): Finding {
    if e.generation == 0 then NOTHING else Compare(e.euid, e.caps, p)
  }

  /** The cache after one process of a scan. */
  function CacheStep(t: seq<Entry>, g: u32, p: Process): (r: seq<Entry>)
    requires |t| > 0
    ensures |r| == |t|
  {
    if IsMonitored(p) then t[SlotFor(t, p.pid) := Updated(p, g)] else t
  }

  /** What the cache reports for one process of a scan. */
  function CacheFinding(t: seq<Entry>, p: Process): Finding
    requires |t| > 0
  {
    if IsMonitored(p) then Judged(Looked(t[SlotFor(t, p.pid)], p.pid), p) else NOTHING
  }

  /** The cache after the first `n` processes of a scan. */
  function CacheAfter(t: seq<Entry>, g: u32, procs: seq<Process>, n: nat): (r: seq<Entry>)
    requires |t| > 0 && n <= |procs|
    ensures |r| == |t|
  {
    if n == 0 then t else CacheStep(CacheAfter(t, g, procs, n - 1), g, procs[n - 1])
  }

  // -------------------------------------------------------- the unbounded record

  datatype Creds = Creds(euid: u32, caps: bv64)

  type Record = map<u32, Creds>

  function RecordStep(m: Record, p: Process): Record {
    if IsMonitored(p) then m[p.pid := Creds(p.euid, p.caps)] else m
  }

  function RecordFinding(m: Record, p: Process): Finding {
    if IsMonitored(p) && p.pid in m then Compare(m[p.pid].euid, m[p.pid].caps, p) else NOTHING
  }

  function RecordAfter(m: Record, procs: seq<Process>, n: nat): Record
    requires n <= |procs|
  {
    if n == 0 then m else RecordStep(RecordAfter(m, procs, n - 1), procs[n - 1])
  }

  /** The monitored processes among the first `n` of a scan. */
  function Seen(procs: seq<Process>, n: nat): (r: set<u32>)
    requires n <= |procs|
    ensures |r| <= n
  {
    if n == 0 then {}
    else if IsMonitored(procs[n - 1]) then Seen(procs, n - 1) + {procs[n - 1].pid}
    else Seen(procs, n - 1)
  }

  // ------------------------------------------------------------------- invariant

  predicate Unique(t: seq<Entry>) {
    forall i, j :: 0 <= i < j < |t| && t[i].used && t[j].used ==> t[i].pid != t[j].pid
  }

  /** A used entry is up to date, and its generation says when it was last seen. */
  predicate Accurate(e: Entry, m: Record, prev: set<u32>, cur: set<u32>, g: nat) {
    && e.pid in m && m[e.pid] == Creds(e.euid, e.caps)
    && 1 <= e.generation <= g
    && (e.generation == g <==> e.pid in cur)
    && (e.generation >= g - 1 <==> e.pid in prev + cur)
  }

  /** The cache during scan `g`, when `prev` was seen in the scan before and
      `cur` so far in this one: accurate wherever it has an entry, and holding
      an entry for everything recent.
    */
  ghost predicate Inv(t: seq<Entry>, m: Record, prev: set<u32>, cur: set<u32>, g: nat) {
    && |t| == MAX_PRIV_BASELINE
    && Unique(t)
    && (forall i :: 0 <= i < |t| && t[i].used ==> Accurate(t[i], m, prev, cur, g))
    && (forall pid :: pid in prev + cur ==> FindFrom(t, pid, 0) < |t|)
    && |prev| <= MAX_TASK_SNAPSHOT
    && |cur| <= MAX_TASK_SNAPSHOT
  }

  lemma Found(t: seq<Entry>, pid: u32, i: nat)
    requires i < |t| && Holds(t[i], pid)
    ensures FindFrom(t, pid, 0) <= i && Holds(t[FindFrom(t, pid, 0)], pid)
  {
  }

  /** The processes that the entries belong to. */
  function OwnerList(t: seq<Entry>): seq<u32> {
    seq(|t|, i requires 0 <= i < |t| => t[i].pid)
  }

  /** A full cache always has an entry older than the previous scan. */
  lemma HasStale(t: seq<Entry>, m: Record, prev: set<u32>, cur: set<u32>, g: nat)
    requires Inv(t, m, prev, cur, g) && |cur| < MAX_TASK_SNAPSHOT
    requires forall i :: 0 <= i < |t| ==> t[i].used
    ensures exists i :: 0 <= i < |t| && t[i].generation < g - 1
  {
    hide FindFrom;
    assert |prev + cur| <= |prev| + |cur|;
    if forall i :: 0 <= i < |t| ==> t[i].generation >= g - 1 {
      DistinctCount(OwnerList(t));
      SubsetCount(Elements(OwnerList(t)), prev + cur);
    }
  }

  /** Eviction never takes an entry refreshed in the previous or current scan. */
  lemma EvictionIsStale(t: seq<Entry>, m: Record, prev: set<u32>, cur: set<u32>, g: nat, pid: u32)
    requires Inv(t, m, prev, cur, g) && |cur + {pid}| <= MAX_TASK_SNAPSHOT
    ensures
      var e := t[SlotFor(t, pid)];
      e.used && e.pid != pid ==> e.pid !in prev + cur && e.generation < g - 1
  {
    var e := t[SlotFor(t, pid)];
    if e.used && e.pid != pid {
      assert pid !in cur;
      assert |cur + {pid}| == |cur| + 1;
      HasStale(t, m, prev, cur, g);
      assert Accurate(e, m, prev, cur, g);
    }
  }

  /** An entry other than the updated one stays accurate. */
  lemma StaysAccurate(e: Entry, m: Record, prev: set<u32>, cur: set<u32>, g: nat, pid: u32, c: Creds)
    requires Accurate(e, m, prev, cur, g) && e.pid != pid
    ensures Accurate(e, m[pid := c], prev, cur + {pid}, g)
  {
  }

  lemma StepAccurate(t: seq<Entry>, m: Record, prev: set<u32>, cur: set<u32>, g: u32, p: Process, j: nat)
    requires Inv(t, m, prev, cur, g) && IsMonitored(p) && 1 <= g && j < |t|
    requires CacheStep(t, g, p)[j].used
    ensures Accurate(CacheStep(t, g, p)[j], RecordStep(m, p), prev, cur + {p.pid}, g)
  {
    SlotIsOwn(t, p.pid);
    hide FindFrom, SlotFor, Accurate, Unique;
    if j != SlotFor(t, p.pid) {
      StaysAccurate(t[j], m, prev, cur, g, p.pid, Creds(p.euid, p.caps));
    } else {
      FreshAccurate(m, prev, cur, g, p);
    }
  }

  lemma StepFound(t: seq<Entry>, m: Record, prev: set<u32>, cur: set<u32>, g: u32, p: Process, pid: u32)
    requires Inv(t, m, prev, cur, g) && IsMonitored(p) && |cur + {p.pid}| <= MAX_TASK_SNAPSHOT
    requires pid in prev + (cur + {p.pid})
    ensures FindFrom(CacheStep(t, g, p), pid, 0) < |t|
  {
    EvictionIsStale(t, m, prev, cur, g, p.pid);
    hide FindFrom, SlotFor, Accurate, Unique;
    var i, t' := SlotFor(t, p.pid), CacheStep(t, g, p);
    if pid == p.pid {
      Found(t', pid, i);
    } else {
      assert pid in prev + cur;
      StillFound(t, pid, i, t');
    }
  }

  lemma StepUnique(t: seq<Entry>, g: u32, p: Process)
    requires Unique(t) && |t| > 0
    ensures Unique(CacheStep(t, g, p))
  {
    SlotIsOwn(t, p.pid);
    hide FindFrom, SlotFor;
  }

  lemma StepKeepsInv(t: seq<Entry>, m: Record, prev: set<u32>, cur: set<u32>, g: u32, p: Process)
    requires Inv(t, m, prev, cur, g) && IsMonitored(p) && 1 <= g && |cur + {p.pid}| <= MAX_TASK_SNAPSHOT
    ensures Inv(CacheStep(t, g, p), RecordStep(m, p), prev, cur + {p.pid}, g)
  {
    hide FindFrom, SlotFor, Accurate, CacheStep, Unique, RecordStep;
    var t', m' := CacheStep(t, g, p), RecordStep(m, p);
    StepUnique(t, g, p);
    forall j | 0 <= j < |t'| && t'[j].used ensures Accurate(t'[j], m', prev, cur + {p.pid}, g) {
      StepAccurate(t, m, prev, cur, g, p, j);
    }
    forall pid | pid in prev + (cur + {p.pid}) ensures FindFrom(t', pid, 0) < |t'| {
      StepFound(t, m, prev, cur, g, p, pid);
    }
  }

  lemma FreshAccurate(m: Record, prev: set<u32>, cur: set<u32>, g: u32, p: Process)
    requires 1 <= g && IsMonitored(p)
    ensures Accurate(Updated(p, g), RecordStep(m, p), prev, cur + {p.pid}, g)
  {
  }

  /** With unique entries a process's slot is the only one that can hold it. */
  lemma SlotIsOwn(t: seq<Entry>, pid: u32)
    requires Unique(t) && |t| > 0
    ensures forall j :: 0 <= j < |t| && j != SlotFor(t, pid) ==> !Holds(t[j], pid)
  {
  }

  /** An entry in a slot that was not touched is still found. */
  lemma StillFound(t: seq<Entry>, pid: u32, i: nat, t': seq<Entry>)
    requires i < |t| == |t'| && FindFrom(t, pid, 0) < |t|
    requires forall j :: 0 <= j < |t| && j != i ==> t'[j] == t[j]
    requires t[i].used ==> t[i].pid != pid
    ensures FindFrom(t', pid, 0) < |t'|
  {
    var j := FindFrom(t, pid, 0);
    assert Holds(t'[j], pid);
    Found(t', pid, j);
  }

  // ------------------------------------------------------------- whole scans and runs

  /** Within a scan of at most 4096 tasks the invariant holds at every process. */
  lemma {:induction false} ScanKeepsInv(t: seq<Entry>, m: Record, prev: set<u32>, g: u32, procs: seq<Process>, n: nat)
    requires Inv(t, m, prev, {}, g) && 1 <= g && n <= |procs| <= MAX_TASK_SNAPSHOT
    ensures Inv(CacheAfter(t, g, procs, n), RecordAfter(m, procs, n), prev, Seen(procs, n), g)
  {
    hide Inv, CacheStep, RecordStep;
    InvSize(t, m, prev, {}, g);
    if n > 0 {
      ScanKeepsInv(t, m, prev, g, procs, n - 1);
      var p := procs[n - 1];
      if IsMonitored(p) {
        StepKeepsInv(CacheAfter(t, g, procs, n - 1), RecordAfter(m, procs, n - 1), prev, Seen(procs, n - 1), g, p);
      } else {
        Unmonitored(CacheAfter(t, g, procs, n - 1), g, RecordAfter(m, procs, n - 1), p);
      }
    }
  }

  lemma InvSize(t: seq<Entry>, m: Record, prev: set<u32>, cur: set<u32>, g: nat)
    requires Inv(t, m, prev, cur, g)
    ensures |t| == MAX_PRIV_BASELINE
  {
  }

  lemma Unmonitored(t: seq<Entry>, g: u32, m: Record, p: Process)
    requires !IsMonitored(p) && |t| > 0
    ensures CacheStep(t, g, p) == t && RecordStep(m, p) == m
  {
  }

  lemma NextScan(t: seq<Entry>, m: Record, prev: set<u32>, cur: set<u32>, g: nat)
    requires Inv(t, m, prev, cur, g)
    ensures Inv(t, m, cur, {}, g + 1)
  {
    hide FindFrom;
    assert cur + {} == cur;
    forall i | 0 <= i < |t| && t[i].used ensures Accurate(t[i], m, cur, {}, g + 1) {
      assert Accurate(t[i], m, prev, cur, g);
    }
  }

  /** What the cache reports for a process is right if the process was seen in
      the previous scan or earlier in this one; for any other process it is
      right or nothing.
    */
  lemma FindingAgrees(t: seq<Entry>, m: Record, prev: set<u32>, cur: set<u32>, g: nat, p: Process)
    requires Inv(t, m, prev, cur, g)
    ensures CacheFinding(t, p) in {NOTHING, RecordFinding(m, p)}
    ensures p.pid in prev + cur ==> CacheFinding(t, p) == RecordFinding(m, p)
  {
    hide Compare;
    if IsMonitored(p) {
      var e := t[SlotFor(t, p.pid)];
      if Holds(e, p.pid) {
        assert Accurate(e, m, prev, cur, g);
      }
    }
  }

  predicate Empty(t: seq<Entry>) {
    |t| == MAX_PRIV_BASELINE && forall i :: 0 <= i < |t| ==> !t[i].used
  }

  /** The cache after a sequence of scans, from the empty one. */
  function CacheOf(t: seq<Entry>, scans: seq<seq<Process>>): (r: seq<Entry>)
    requires |t| > 0
    ensures |r| == |t|
  {
    if scans == [] then t
    else
      var n := |scans| - 1;
      CacheAfter(CacheOf(t, scans[..n]), |scans| % WORD32, scans[n], |scans[n]|)
  }

  function RecordOf(scans: seq<seq<Process>>): Record {
    if scans == [] then map[]
    else
      var n := |scans| - 1;
      RecordAfter(RecordOf(scans[..n]), scans[n], |scans[n]|)
  }

  function SeenLast(scans: seq<seq<Process>>): set<u32> {
    if scans == [] then {} else Seen(scans[|scans| - 1], |scans[|scans| - 1]|)
  }

  predicate Bounded(scans: seq<seq<Process>>) {
    |scans| < WORD32 && forall k :: 0 <= k < |scans| ==> |scans[k]| <= MAX_TASK_SNAPSHOT
  }

  lemma {:induction false} RunKeepsInv(t: seq<Entry>, scans: seq<seq<Process>>)
    requires Empty(t) && Bounded(scans)
    ensures exists prev :: Inv(CacheOf(t, scans), RecordOf(scans), prev, SeenLast(scans), |scans|)
  {
    hide Inv, CacheAfter, RecordAfter, Seen;
    if scans == [] {
      EmptyInv(t);
      assert Inv(CacheOf(t, scans), RecordOf(scans), {}, SeenLast(scans), |scans|);
    } else {
      var n := |scans| - 1;
      RunKeepsInv(t, scans[..n]);
      assert |scans| % WORD32 == |scans|;
      var prev :| Inv(CacheOf(t, scans[..n]), RecordOf(scans[..n]), prev, SeenLast(scans[..n]), n);
      NextScan(CacheOf(t, scans[..n]), RecordOf(scans[..n]), prev, SeenLast(scans[..n]), n);
      ScanKeepsInv(CacheOf(t, scans[..n]), RecordOf(scans[..n]), SeenLast(scans[..n]), |scans|, scans[n], |scans[n]|);
      assert Inv(CacheOf(t, scans), RecordOf(scans), SeenLast(scans[..n]), SeenLast(scans), |scans|);
    }
  }

  lemma EmptyInv(t: seq<Entry>)
    requires Empty(t)
    ensures Inv(t, map[], {}, {}, 0)
  {
  }

  /** Over any run of fewer than 2^32 scans of at most 4096 tasks: at every
      process of the next scan the bounded cache reports what an unbounded
      record would, if the process was seen in the scan before or earlier in
      this one, and otherwise at most that.
    */
  lemma CacheAgreesWithRecord(t: seq<Entry>, scans: seq<seq<Process>>, procs: seq<Process>, j: nat)
    requires Empty(t) && Bounded(scans + [procs]) && j < |procs|
    ensures
      var g := (|scans| + 1) % WORD32;
      var cached := CacheFinding(CacheAfter(CacheOf(t, scans), g, procs, j), procs[j]);
      var exact := RecordFinding(RecordAfter(RecordOf(scans), procs, j), procs[j]);
      && cached in {NOTHING, exact}
      && (procs[j].pid in SeenLast(scans) + Seen(procs, j) ==> cached == exact)
  {
    hide Inv, CacheFinding, RecordFinding, CacheAfter, RecordAfter, CacheOf, RecordOf, Seen, SeenLast;
    assert (|scans| + 1) % WORD32 == |scans| + 1;
    assert (scans + [procs])[|scans|] == procs;
    assert forall k :: 0 <= k < |scans| ==> (scans + [procs])[k] == scans[k];
    RunKeepsInv(t, scans);
    var prev :| Inv(CacheOf(t, scans), RecordOf(scans), prev, SeenLast(scans), |scans|);
    NextScan(CacheOf(t, scans), RecordOf(scans), prev, SeenLast(scans), |scans|);
    ScanKeepsInv(CacheOf(t, scans), RecordOf(scans), SeenLast(scans), |scans| + 1, procs, j);
    FindingAgrees(CacheAfter(CacheOf(t, scans), |scans| + 1, procs, j), RecordAfter(RecordOf(scans), procs, j),
                  SeenLast(scans), Seen(procs, j), |scans| + 1, procs[j]);
  }

  lemma {:induction false} ScanUnique(t: seq<Entry>, g: u32, procs: seq<Process>, n: nat)
    requires Unique(t) && |t| > 0 && n <= |procs|
    ensures Unique(CacheAfter(t, g, procs, n))
  {
    hide Unique, CacheStep;
    if n > 0 {
      ScanUnique(t, g, procs, n - 1);
      StepUnique(CacheAfter(t, g, procs, n - 1), g, procs[n - 1]);
    }
  }

  /** No process ever has two entries, over scans of any number and size. */
  lemma {:induction false} AlwaysUnique(t: seq<Entry>, scans: seq<seq<Process>>)
    requires Empty(t)
    ensures Unique(CacheOf(t, scans))
    decreases |scans|
  {
    hide CacheAfter;
    if scans != [] {
      var n := |scans| - 1;
      AlwaysUnique(t, scans[..n]);
      ScanUnique(CacheOf(t, scans[..n]), |scans| % WORD32, scans[n], |scans[n]|);
    }
  }

  // ------------------------------------------------------------------ the process list

  /** A guest: what reading a task and following its list link give. */
  datatype Guest = Guest(read: u64 -> Option<Process>, next: u64 -> Option<u64>)

  /** The node `i` links after the first. */
  function Node(s: Guest, init: u64, i: nat): Option<u64> {
    if i == 0 then Some(init)
    else
      var before := Node(s, init, i - 1);
      if before.None? then None else s.next(before.value)
  }

  /** Task `i` can be read and has a link. */
  predicate Readable(s: Guest, init: u64, i: nat) {
    var a := Node(s, init, i);
    a.Some? && s.read(a.value).Some? && s.next(a.value).Some?
  }

  /** `n` readable tasks linked in a ring. */
  ghost predicate Ring(s: Guest, init: u64, n: nat) {
    && n > 0
    && Node(s, init, n) == Some(init)
    && forall i :: 0 <= i < n ==> Readable(s, init, i) && (i > 0 ==> Node(s, init, i) != Some(init))
  }

  /** Walks the circular task list from the first task, up to a cap. */
  method SnapshotProcesses(s: Guest, init: u64, maxTasks: int) returns (r: Option<seq<Process>>)
    ensures r.None? <==> init == 0 || maxTasks <= 0
    ensures r.Some? ==> |r.value| <= maxTasks
    ensures r.Some? ==> forall i :: 0 <= i < |r.value| ==>
      Readable(s, init, i) && s.read(Node(s, init, i).value) == Some(r.value[i])
    ensures r.Some? ==> forall i :: 0 < i < |r.value| ==> Node(s, init, i) != Some(init)
    ensures r.Some? ==>
      var n := |r.value|;
      n == maxTasks || !Readable(s, init, n) || (n > 0 && Node(s, init, n) == Some(init))
  {
    if init == 0 || maxTasks <= 0 {
      return None;
    }
    var current, out := init, [];
    while |out| < maxTasks
      invariant |out| <= maxTasks && Node(s, init, |out|) == Some(current)
      invariant forall i :: 0 <= i < |out| ==>
        Readable(s, init, i) && s.read(Node(s, init, i).value) == Some(out[i])
      invariant forall i :: 0 < i < |out| ==> Node(s, init, i) != Some(init)
      invariant |out| > 0 ==> current != init
    {
      var p, next := s.read(current), s.next(current);
      if p.None? || next.None? {
        break;
      }
      current, out := next.value, out + [p.value];
      if current == init {
        return Some(out);
      }
    }
    r := Some(out);
  }

  /** A ring within the cap is snapshotted whole, each task once. */
  lemma {:induction false} RingSnapshot(s: Guest, init: u64, maxTasks: nat, n: nat, out: seq<Process>)
    requires Ring(s, init, n) && n <= maxTasks && |out| <= maxTasks
    requires forall i :: 0 < i < |out| ==> Node(s, init, i) != Some(init)
    requires |out| == maxTasks || !Readable(s, init, |out|) || (|out| > 0 && Node(s, init, |out|) == Some(init))
    ensures |out| == n
  {
    assert |out| > n ==> Node(s, init, n) == Some(init);
  }

  lemma {:induction false} NodeAfter(s: Guest, init: u64, i: nat, j: nat, k: nat)
    requires Node(s, init, i) == Node(s, init, j)
    ensures Node(s, init, i + k) == Node(s, init, j + k)
  {
    if k > 0 { NodeAfter(s, init, i, j, k - 1); }
  }

  /** The tasks of a ring are pairwise different. */
  lemma {:induction false} RingDistinct(s: Guest, init: u64, n: nat, i: nat, j: nat)
    requires Ring(s, init, n) && i < j < n
    ensures Node(s, init, i) != Node(s, init, j)
  {
    if Node(s, init, i) == Node(s, init, j) {
      NodeAfter(s, init, i, j, n - j);
    }
  }

  // -------------------------------------------------------------------- the monitor

  function Detections(f: Finding): nat {
    (if f.rootTransition then 1 else 0) + (if f.capsExpanded then 1 else 0)
  }

  function TotalDetections(fs: seq<Finding>): nat {
    if fs == [] then 0 else TotalDetections(fs[..|fs| - 1]) + Detections(fs[|fs| - 1])
  }

  /** The detections are the turns to root and the gains of capabilities. */
  lemma {:induction false} DetectionsAre(fs: seq<Finding>)
    ensures TotalDetections(fs) ==
      |set i | 0 <= i < |fs| && fs[i].rootTransition| + |set i | 0 <= i < |fs| && fs[i].capsExpanded|
  {
    if fs != [] {
      var n := |fs| - 1;
      DetectionsAre(fs[..n]);
      RootsNext(fs, n);
      GainsNext(fs, n);
    }
  }

  lemma RootsNext(fs: seq<Finding>, n: nat)
    requires |fs| == n + 1
    ensures |set i | 0 <= i < |fs| && fs[i].rootTransition| ==
      |set i | 0 <= i < |fs[..n]| && fs[..n][i].rootTransition| + if fs[n].rootTransition then 1 else 0
  {
    var before := set i | 0 <= i < |fs[..n]| && fs[..n][i].rootTransition;
    assert (set i | 0 <= i < |fs| && fs[i].rootTransition) == before + if fs[n].rootTransition then {n} else {};
  }

  lemma GainsNext(fs: seq<Finding>, n: nat)
    requires |fs| == n + 1
    ensures |set i | 0 <= i < |fs| && fs[i].capsExpanded| ==
      |set i | 0 <= i < |fs[..n]| && fs[..n][i].capsExpanded| + if fs[n].capsExpanded then 1 else 0
  {
    var before := set i | 0 <= i < |fs[..n]| && fs[..n][i].capsExpanded;
    assert (set i | 0 <= i < |fs| && fs[i].capsExpanded) == before + if fs[n].capsExpanded then {n} else {};
  }

  class Monitor {
    const table: array<Entry>
    var generation: u32
    ghost var scans: seq<seq<Process>>

    ghost predicate Valid()
      reads this, table
    {
      && table.Length == MAX_PRIV_BASELINE
      && generation == |scans| % WORD32
      && exists t :: Empty(t) && table[..] == CacheOf(t, scans)
    }

    constructor ()
      ensures Valid() && scans == [] && fresh(table)
    {
      table := new Entry[MAX_PRIV_BASELINE](_ => Entry(false, 0, 0, 0, 0, "", 0));
      generation, scans := 0, [];
      new;
      assert Empty(table[..]);
    }

    /** The slot of a process, claimed and reset if it has none. */
    method FindOrAlloc(pid: u32) returns (i: nat)
      requires table.Length == MAX_PRIV_BASELINE
      modifies table
      ensures i == SlotFor(old(table[..]), pid) && i < table.Length
      ensures table[..] == old(table[..])[i := Looked(old(table[..])[i], pid)]
    {
      ghost var t := table[..];
      i := 0;
      while i < table.Length && !Holds(table[i], pid)
        invariant i <= table.Length && table[..] == t && FindFrom(t, pid, 0) == FindFrom(t, pid, i)
      {
        i := i + 1;
      }
      if i < table.Length {
        assert t[i := Looked(t[i], pid)] == t;
        return;
      }
      i := 0;
      while i < table.Length && table[i].used
        invariant i <= table.Length && table[..] == t && FreeFrom(t, 0) == FreeFrom(t, i)
      {
        i := i + 1;
      }
      if i == table.Length {
        i := 0;
        for k := 1 to table.Length
          invariant table[..] == t && i == Oldest(t, k)
        {
          if table[k].generation < table[i].generation {
            i := k;
          }
        }
      }
      table[i] := Entry(true, pid, 0, 0, 0, "", 0);
    }

    /** One scan over a snapshot of the process list. */
    method DetectPrivilegeEscalation(procs: seq<Process>) returns (detections: nat, findings: seq<Finding>)
      requires Valid()
      modifies this, table
      ensures Valid() && scans == old(scans) + [procs]
      ensures |findings| == |procs| && detections == TotalDetections(findings)
      ensures forall j :: 0 <= j < |procs| ==>
        findings[j] == CacheFinding(CacheAfter(old(table[..]), generation, procs, j), procs[j])
    {
      hide CacheAfter, CacheStep, CacheFinding, CacheOf, Empty, TotalDetections, Detections;
      ghost var t := table[..];
      CacheAfterNext(t, (generation + 1) % WORD32, procs, 0);
      NoDetections();
      generation := (generation + 1) % WORD32;
      detections, findings := 0, [];
      for i := 0 to |procs|
        invariant generation == (old(generation) + 1) % WORD32 && scans == old(scans)
        invariant table[..] == CacheAfter(t, generation, procs, i)
        invariant |findings| == i && detections == TotalDetections(findings)
        invariant forall j :: 0 <= j < i ==>
          findings[j] == CacheFinding(CacheAfter(t, generation, procs, j), procs[j])
      {
        CacheAfterNext(t, generation, procs, i);
        var f := ScanOne(procs[i]);
        detections := detections + Detections(f);
        TotalNext(findings, f);
        findings := findings + [f];
      }
      RunNext(scans, procs, t, table[..]);
      CountUp(|scans|, WORD32);
      scans := scans + [procs];
    }

    method ScanOne(p: Process) returns (f: Finding)
      requires table.Length == MAX_PRIV_BASELINE
      modifies table
      ensures table[..] == CacheStep(old(table[..]), generation, p)
      ensures f == CacheFinding(old(table[..]), p)
    {
      if !IsMonitored(p) {
        return NOTHING;
      }
      var i := FindOrAlloc(p.pid);
      f := Judged(table[i], p);
      table[i] := Updated(p, generation);
    }
  }

  lemma CacheAfterNext(t: seq<Entry>, g: u32, procs: seq<Process>, n: nat)
    requires |t| > 0 && n <= |procs|
    ensures CacheAfter(t, g, procs, 0) == t
    ensures n < |procs| ==> CacheAfter(t, g, procs, n + 1) == CacheStep(CacheAfter(t, g, procs, n), g, procs[n])
  {
  }

  lemma NoDetections()
    ensures TotalDetections([]) == 0
  {
  }

  lemma TotalNext(fs: seq<Finding>, f: Finding)
    ensures TotalDetections(fs + [f]) == TotalDetections(fs) + Detections(f)
  {
    assert (fs + [f])[..|fs|] == fs;
  }

  lemma RunNext(scans: seq<seq<Process>>, procs: seq<Process>, t: seq<Entry>, t': seq<Entry>)
    requires |t| == MAX_PRIV_BASELINE && exists e :: Empty(e) && t == CacheOf(e, scans)
    requires t' == CacheAfter(t, (|scans| + 1) % WORD32, procs, |procs|)
    ensures exists e :: Empty(e) && t' == CacheOf(e, scans + [procs])
  {
    var e :| Empty(e) && t == CacheOf(e, scans);
    assert (scans + [procs])[..|scans|] == scans;
    assert t' == CacheOf(e, scans + [procs]);
  }
}

/** The per-process threat policy of the alert bridge: a burst window that
    escalates repeated suspicion, and a window that suppresses duplicates.
  */
module ThreatPolicy {
  import opened Bits

  const ESCALATION_COUNT: nat := 3
  const ESCALATION_WINDOW_NS: nat := 10_000_000_000
  const DEDUP_WINDOW_NS: nat := 1_000_000_000

  const CLEAN: nat := 0
  const SUSPICIOUS: nat := 1
  const MALICIOUS: nat := 2

  /** A slot of the policy table. */
  datatype Policy = Policy(
    used: bool, pid: u32, lastThreat: u32, burst: u32, windowStart: u64, lastEmit: u64)

  /** A slot just claimed for a process. */
  function Fresh(pid: u32): Policy {
    Policy(true, pid, CLEAN, 0, 0, 0)
  }

  /** A signal for one process: suspicious or malicious, at a time. */
  datatype Signal = Signal(suspicious: bool, time: u64)

  function Level(s: Signal): nat {
    if s.suspicious then SUSPICIOUS else MALICIOUS
  }

  datatype Verdict = Verdict(state: Policy, effective: u32, suppress: bool, escalated: bool)

  /** The burst part of the policy. */
  function Burst(st: Policy, s: Signal): Policy {
    if s.suspicious then
      var w :=
        if st.windowStart == 0 || Sub64(s.time, st.windowStart) > ESCALATION_WINDOW_NS
        then st.(windowStart := s.time, burst := 0) else st;
      w.(burst := (w.burst + 1) % WORD32)
    else
      st.(burst := 0, windowStart := s.time)
  }

  /** What the policy makes of a signal. */
  function Judge(st: Policy, s: Signal): Verdict {
    var b := Burst(st, s);
    var escalated := s.suspicious && b.burst >= ESCALATION_COUNT;
    var effective := if escalated then MALICIOUS else Level(s);
    var suppress :=
      effective == b.lastThreat && Sub64(s.time, b.lastEmit) < DEDUP_WINDOW_NS && !escalated;
    Verdict(if suppress then b else b.(lastThreat := effective, lastEmit := s.time),
            effective, suppress, escalated)
  }

  // ----------------------------------------------------------- runs of one process

  /** The state after a process's signals, from a fresh slot. */
  function StateAfter(pid: u32, h: seq<Signal>): (st: Policy)
    ensures st.used && st.pid == pid
  {
    if h == [] then Fresh(pid)
    else Judge(StateAfter(pid, h[..|h| - 1]), h[|h| - 1]).state
  }

  /** The verdict on the signal at position `k` of a run. */
  function VerdictAt(pid: u32, h: seq<Signal>, k: nat): Verdict
    requires k < |h|
  {
    Judge(StateAfter(pid, h[..k]), h[k])
  }

  /** The bridge's clock: positive and never going back. */
  predicate Clocked(h: seq<Signal>) {
    && (forall i :: 0 <= i < |h| ==> h[i].time > 0)
    && (forall i, j :: 0 <= i < j < |h| ==> h[i].time <= h[j].time)
  }

  lemma StateStep(pid: u32, h: seq<Signal>, k: nat)
    requires k < |h|
    ensures StateAfter(pid, h[..k + 1]) == VerdictAt(pid, h, k).state
  {
    assert h[..k + 1][..k] == h[..k];
  }

  lemma StateAppend(pid: u32, h: seq<Signal>, s: Signal)
    ensures StateAfter(pid, h + [s]) == Judge(StateAfter(pid, h), s).state
    ensures StateAfter(pid, []) == Fresh(pid)
  {
    assert (h + [s])[..|h|] == h;
  }

  /** The last `burst` signals are suspicious and lie in the open window. */
  ghost predicate Streak(st: Policy, h: seq<Signal>) {
    && st.burst <= |h|
    && (h == [] <==> st.windowStart == 0)
    && (h != [] ==> st.windowStart <= h[|h| - 1].time)
    && forall i :: |h| - st.burst <= i < |h| ==> h[i].suspicious && st.windowStart <= h[i].time
  }

  /** Whether a signal makes the window start afresh. */
  predicate Reopens(st: Policy, t: u64) {
    st.windowStart == 0 || Sub64(t, st.windowStart) > ESCALATION_WINDOW_NS
  }

  lemma BurstStep(st: Policy, t: u64)
    ensures var b := Burst(st, Signal(true, t));
      if Reopens(st, t) then b.burst == 1 && b.windowStart == t
      else b.burst == (st.burst + 1) % WORD32 && b.windowStart == st.windowStart
  {
  }

  lemma StreakNext(st: Policy, h: seq<Signal>, s: Signal)
    requires Streak(st, h) && Clocked(h + [s])
    ensures Streak(Burst(st, s), h + [s])
  {
    var g := h + [s];
    var b := Burst(st, s);
    assert g[|h|] == s && s.time > 0;
    if h != [] { assert g[|h| - 1] == h[|h| - 1] && h[|h| - 1].time <= s.time; }
    if s.suspicious {
      BurstStep(st, s.time);
      assert s == Signal(true, s.time);
    }
    forall i | |g| - b.burst <= i < |g| ensures g[i].suspicious && b.windowStart <= g[i].time {
      if i < |h| { assert g[i] == h[i] && i >= |h| - st.burst; }
    }
  }

  lemma JudgeKeepsBurst(st: Policy, s: Signal)
    ensures Judge(st, s).state.burst == Burst(st, s).burst
    ensures Judge(st, s).state.windowStart == Burst(st, s).windowStart
  {
  }

  lemma {:induction false} StreakHolds(pid: u32, h: seq<Signal>)
    requires Clocked(h)
    ensures Streak(StateAfter(pid, h), h)
  {
    hide Judge, Burst;
    if h != [] {
      var n := |h| - 1;
      var st := StateAfter(pid, h[..n]);
      StreakHolds(pid, h[..n]);
      assert h[..n] + [h[n]] == h;
      StreakNext(st, h[..n], h[n]);
      JudgeKeepsBurst(st, h[n]);
    }
  }

  /** An escalation is justified: the process's last three signals, this one
      included, are all suspicious and at most ten seconds apart.
    */
  lemma EscalationJustified(pid: u32, h: seq<Signal>, k: nat)
    requires Clocked(h) && k < |h| && VerdictAt(pid, h, k).escalated
    ensures k >= 2
    ensures h[k - 2].suspicious && h[k - 1].suspicious && h[k].suspicious
    ensures h[k].time - h[k - 2].time <= ESCALATION_WINDOW_NS
  {
    var st := StateAfter(pid, h[..k]);
    StreakHolds(pid, h[..k]);
    assert h[..k] + [h[k]] == h[..k + 1];
    StreakNext(st, h[..k], h[k]);
    var b := Burst(st, h[k]);
    var g := h[..k + 1];
    assert Streak(b, g);
    assert g[k - 2].suspicious && b.windowStart <= g[k - 2].time;
    assert g[k - 1].suspicious;
  }

  // ------------------------------------------------- escalation by the history alone

  /** The signal that opened the window in which signal `k` falls: the first one,
      a malicious one, or one more than ten seconds after the last opening.
    */
  function Opening(h: seq<Signal>, k: nat): (o: nat)
    requires k < |h|
    ensures o <= k
  {
    if k == 0 || !h[k].suspicious then k
    else
      var o := Opening(h, k - 1);
      if h[k].time - h[o].time > 10_000_000_000 then k else o
  }

  /** How many suspicious signals the window holds, up to signal `k`. */
  function InWindow(h: seq<Signal>, k: nat): nat
    requires k < |h|
  {
    var o := Opening(h, k);
    k - o + if h[o].suspicious then 1 else 0
  }

  lemma {:induction false} WindowIs(pid: u32, h: seq<Signal>, k: nat)
    requires Clocked(h) && k < |h|
    ensures
      var st := StateAfter(pid, h[..k + 1]);
      st.windowStart == h[Opening(h, k)].time && st.burst == InWindow(h, k) % WORD32
  {
    hide Judge, Burst, StateAfter;
    var st := StateAfter(pid, h[..k]);
    StateStep(pid, h, k);
    JudgeKeepsBurst(st, h[k]);
    if k == 0 {
      assert h[..0] == [];
      StateAppend(pid, [], h[0]);
    } else {
      WindowIs(pid, h, k - 1);
      assert h[Opening(h, k - 1)].time <= h[k].time;
      CountNext(InWindow(h, k - 1));
    }
    if h[k].suspicious {
      assert h[k] == Signal(true, h[k].time);
      BurstStep(st, h[k].time);
    } else {
      MaliciousStep(st, h[k]);
    }
  }

  lemma MaliciousStep(st: Policy, s: Signal)
    requires !s.suspicious
    ensures Burst(st, s).burst == 0 && Burst(st, s).windowStart == s.time
  {
  }

  lemma CountNext(n: nat)
    ensures (n % WORD32 + 1) % WORD32 == (n + 1) % WORD32
  {
  }

  /** A signal escalates if and only if it is suspicious and the third or a
      later one of its window, counted modulo 2^32.
    */
  lemma EscalatesIff(pid: u32, h: seq<Signal>, k: nat)
    requires Clocked(h) && k < |h|
    ensures VerdictAt(pid, h, k).escalated <==> h[k].suspicious && InWindow(h, k) % WORD32 >= 3
  {
    hide Burst;
    WindowIs(pid, h, k);
    StateStep(pid, h, k);
    JudgeKeepsBurst(StateAfter(pid, h[..k]), h[k]);
  }

  // ------------------------------------------------------------ five in ten seconds

  /** The one way five quick suspicious signals slip through: the 32-bit burst
      counter wraps on the first, and the window runs out between the third
      and the fourth.
    */
  predicate CounterWraps(st: Policy, third: u64, fourth: u64) {
    && st.burst == WORD32 - 1
    && st.windowStart != 0
    && Sub64(third, st.windowStart) <= ESCALATION_WINDOW_NS < Sub64(fourth, st.windowStart)
  }

  predicate Quick(ts: seq<u64>) {
    && |ts| == 5
    && 0 < ts[0] <= ts[1] <= ts[2] <= ts[3] <= ts[4]
    && ts[4] - ts[0] <= ESCALATION_WINDOW_NS
  }

  /** `next` carries on the burst of `st` after a suspicious signal at `t`. */
  predicate Carries(st: Policy, t: u64, next: Policy) {
    var b := Burst(st, Signal(true, t));
    next.burst == b.burst && next.windowStart == b.windowStart
  }

  /** Five suspicious signals within ten seconds reach the escalation count,
      unless the counter wraps.
    */
  lemma FiveReachCount(ts: seq<u64>, s0: Policy, s1: Policy, s2: Policy, s3: Policy, s4: Policy, s5: Policy)
    requires Quick(ts) && s0.windowStart <= ts[0]
    requires Carries(s0, ts[0], s1) && Carries(s1, ts[1], s2) && Carries(s2, ts[2], s3)
    requires Carries(s3, ts[3], s4) && Carries(s4, ts[4], s5)
    ensures (s1.burst >= 3 || s2.burst >= 3 || s3.burst >= 3 || s4.burst >= 3 || s5.burst >= 3)
       <==> !CounterWraps(s0, ts[2], ts[3])
  {
    hide Burst;
    BurstStep(s0, ts[0]);
    BurstStep(s1, ts[1]);
    BurstStep(s2, ts[2]);
    BurstStep(s3, ts[3]);
    BurstStep(s4, ts[4]);
  }

  /** A suspicious signal escalates exactly when the count is reached. */
  lemma SuspiciousStep(pid: u32, h: seq<Signal>, k: nat)
    requires k < |h| && h[k].suspicious
    ensures Carries(StateAfter(pid, h[..k]), h[k].time, StateAfter(pid, h[..k + 1]))
    ensures VerdictAt(pid, h, k).escalated <==> StateAfter(pid, h[..k + 1]).burst >= ESCALATION_COUNT
  {
    StateStep(pid, h, k);
    assert h[k] == Signal(true, h[k].time);
    JudgeKeepsBurst(StateAfter(pid, h[..k]), h[k]);
  }

  /** Five consecutive suspicious signals of a process at `k .. k+4`, all within ten seconds. */
  predicate FiveQuick(h: seq<Signal>, k: nat) {
    && k + 5 <= |h|
    && (forall i :: k <= i < k + 5 ==> h[i].suspicious)
    && h[k + 4].time - h[k].time <= ESCALATION_WINDOW_NS
  }

  /** Five suspicious signals within ten seconds, with no malicious one between
      them, include an escalation if and only if the counter does not wrap.
    */
  lemma FiveEscalate(pid: u32, h: seq<Signal>, k: nat)
    requires Clocked(h) && FiveQuick(h, k)
    ensures (exists i :: k <= i < k + 5 && VerdictAt(pid, h, i).escalated)
       <==> !CounterWraps(StateAfter(pid, h[..k]), h[k + 2].time, h[k + 3].time)
  {
    hide Judge, Burst, StateAfter;
    SuspiciousStep(pid, h, k);
    SuspiciousStep(pid, h, k + 1);
    SuspiciousStep(pid, h, k + 2);
    SuspiciousStep(pid, h, k + 3);
    SuspiciousStep(pid, h, k + 4);
    WindowBefore(pid, h, k);
    FiveReachCount([h[k].time, h[k + 1].time, h[k + 2].time, h[k + 3].time, h[k + 4].time],
                   StateAfter(pid, h[..k]), StateAfter(pid, h[..k + 1]), StateAfter(pid, h[..k + 2]),
                   StateAfter(pid, h[..k + 3]), StateAfter(pid, h[..k + 4]), StateAfter(pid, h[..k + 5]));
    assert (exists i :: k <= i < k + 5 && VerdictAt(pid, h, i).escalated) <==>
      (VerdictAt(pid, h, k).escalated || VerdictAt(pid, h, k + 1).escalated || VerdictAt(pid, h, k + 2).escalated
       || VerdictAt(pid, h, k + 3).escalated || VerdictAt(pid, h, k + 4).escalated);
  }

  lemma WindowBefore(pid: u32, h: seq<Signal>, k: nat)
    requires Clocked(h) && k < |h|
    ensures StateAfter(pid, h[..k]).windowStart <= h[k].time
    ensures StateAfter(pid, h[..k]).burst <= k
  {
    StreakHolds(pid, h[..k]);
    if k > 0 { assert h[k - 1].time <= h[k].time; }
  }

  /** In any run shorter than the counter's range the five always escalate. */
  lemma FiveEscalateInShortRuns(pid: u32, h: seq<Signal>, k: nat)
    requires Clocked(h) && FiveQuick(h, k) && |h| < WORD32
    ensures exists i :: k <= i < k + 5 && VerdictAt(pid, h, i).escalated
  {
    WindowBefore(pid, h, k);
    FiveEscalate(pid, h, k);
  }

  function Repeated(n: nat): (h: seq<Signal>)
    ensures |h| == n && forall i :: 0 <= i < n ==> h[i] == Signal(true, 1)
  {
    seq(n, _ => Signal(true, 1))
  }

  lemma {:induction false} RepeatedCount(pid: u32, n: nat)
    requires n > 0
    ensures StateAfter(pid, Repeated(n)).burst == n % WORD32
    ensures StateAfter(pid, Repeated(n)).windowStart == 1
  {
    hide Judge, Burst;
    var st := StateAfter(pid, Repeated(n - 1));
    assert Repeated(n)[..n - 1] == Repeated(n - 1);
    JudgeKeepsBurst(st, Signal(true, 1));
    BurstStep(st, 1);
    if n > 1 {
      RepeatedCount(pid, n - 1);
      assert ((n - 1) % WORD32 + 1) % WORD32 == n % WORD32;
    }
  }

  /** `n` signals at time 1, then five more around the end of their window. */
  function LateFive(n: nat): (h: seq<Signal>)
    ensures |h| == n + 5 && h[..n] == Repeated(n)
  {
    var a, b := Signal(true, ESCALATION_WINDOW_NS + 1), Signal(true, ESCALATION_WINDOW_NS + 2);
    Repeated(n) + [a, a, a, b, b]
  }

  lemma LateFiveQuick(n: nat)
    ensures Clocked(LateFive(n)) && FiveQuick(LateFive(n), n)
    ensures LateFive(n)[n + 2].time == ESCALATION_WINDOW_NS + 1 && LateFive(n)[n + 3].time == ESCALATION_WINDOW_NS + 2
  {
  }

  predicate NoneEscalates(pid: u32, h: seq<Signal>, k: nat)
    requires k + 5 <= |h|
  {
    forall i :: k <= i < k + 5 ==> !VerdictAt(pid, h, i).escalated
  }

  /** The excluded case is reachable: after 2^32 - 1 signals in one window, five
      more can pass without an escalation.
    */
  lemma FiveCanPass(pid: u32)
    ensures exists h, k: nat :: Clocked(h) && FiveQuick(h, k) && NoneEscalates(pid, h, k)
  {
    hide Judge, Burst, Clocked, LateFive, StateAfter, Repeated;
    var k := WORD32 - 1;
    var h := LateFive(k);
    LateFiveQuick(k);
    RepeatedCount(pid, k);
    FiveEscalate(pid, h, k);
    assert NoneEscalates(pid, h, k);
  }

  // ------------------------------------------------------------------- duplicates

  predicate Accepted(pid: u32, h: seq<Signal>, k: nat)
    requires k < |h|
  {
    !VerdictAt(pid, h, k).suppress
  }

  /** `i` is the last accepted signal before position `j`. */
  predicate LastAccepted(pid: u32, h: seq<Signal>, i: nat, j: nat)
    requires i < j <= |h|
  {
    Accepted(pid, h, i) && forall m :: i < m < j ==> !Accepted(pid, h, m)
  }

  lemma JudgeRecords(st: Policy, s: Signal)
    ensures var v := Judge(st, s);
      if v.suppress then v.state.lastThreat == st.lastThreat && v.state.lastEmit == st.lastEmit
      else v.state.lastThreat == v.effective && v.state.lastEmit == s.time
  {
  }

  lemma {:induction false} LastAcceptedRecorded(pid: u32, h: seq<Signal>, i: nat, j: nat)
    requires i < j <= |h| && LastAccepted(pid, h, i, j)
    ensures StateAfter(pid, h[..j]).lastThreat == VerdictAt(pid, h, i).effective
    ensures StateAfter(pid, h[..j]).lastEmit == h[i].time
    decreases j
  {
    hide Judge;
    StateStep(pid, h, j - 1);
    JudgeRecords(StateAfter(pid, h[..j - 1]), h[j - 1]);
    if i < j - 1 {
      LastAcceptedRecorded(pid, h, i, j - 1);
      assert !Accepted(pid, h, j - 1);
    }
  }

  /** Consecutive accepted alerts at one level are at least a second apart,
      unless the later one is an escalation.
    */
  lemma DuplicatesSpaced(pid: u32, h: seq<Signal>, i: nat, j: nat)
    requires Clocked(h) && i < j < |h| && LastAccepted(pid, h, i, j) && Accepted(pid, h, j)
    requires VerdictAt(pid, h, i).effective == VerdictAt(pid, h, j).effective
    requires !VerdictAt(pid, h, j).escalated
    ensures h[j].time - h[i].time >= DEDUP_WINDOW_NS
  {
    LastAcceptedRecorded(pid, h, i, j);
  }

  lemma {:induction false} NothingRecorded(pid: u32, h: seq<Signal>, j: nat)
    requires j <= |h| && forall m :: 0 <= m < j ==> !Accepted(pid, h, m)
    ensures StateAfter(pid, h[..j]).lastThreat == CLEAN
  {
    hide Judge;
    if j > 0 {
      NothingRecorded(pid, h, j - 1);
      StateStep(pid, h, j - 1);
      JudgeRecords(StateAfter(pid, h[..j - 1]), h[j - 1]);
      assert !Accepted(pid, h, j - 1);
    }
  }

  lemma {:induction false} FindLastAccepted(pid: u32, h: seq<Signal>, j: nat) returns (i: int)
    requires j <= |h|
    ensures -1 <= i < j
    ensures i >= 0 ==> LastAccepted(pid, h, i, j)
    ensures i < 0 ==> forall m :: 0 <= m < j ==> !Accepted(pid, h, m)
  {
    if j == 0 {
      i := -1;
    } else if Accepted(pid, h, j - 1) {
      i := j - 1;
    } else {
      i := FindLastAccepted(pid, h, j - 1);
    }
  }

  predicate IsRepeat(pid: u32, h: seq<Signal>, i: nat, j: nat)
    requires i < j < |h|
  {
    && LastAccepted(pid, h, i, j)
    && VerdictAt(pid, h, i).effective == VerdictAt(pid, h, j).effective
    && h[j].time - h[i].time < DEDUP_WINDOW_NS
  }

  /** Only repeats are suppressed: the last accepted alert of the process has
      the same level and is less than a second old.
    */
  lemma SuppressedIsRepeat(pid: u32, h: seq<Signal>, j: nat)
    requires Clocked(h) && j < |h| && !Accepted(pid, h, j)
    ensures exists i :: 0 <= i < j && IsRepeat(pid, h, i, j)
  {
    var i := FindLastAccepted(pid, h, j);
    if i < 0 {
      NothingRecorded(pid, h, j);
    } else {
      LastAcceptedRecorded(pid, h, i, j);
      assert IsRepeat(pid, h, i, j);
    }
  }

  /** An effective level is never below the requested one, and is above it only by escalation. */
  lemma NeverDowngraded(st: Policy, s: Signal)
    ensures var v := Judge(st, s);
      && v.effective >= Level(s) && (v.effective > Level(s) <==> v.escalated)
      && (v.escalated ==> !v.suppress) && v.effective <= MALICIOUS
  {
  }
}

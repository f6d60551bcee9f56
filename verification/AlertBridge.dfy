/** The alert bridge: signals pass the threat policy, accepted alerts are sent
    at once or queued, and the queue is flushed when full, on demand and at
    teardown.
  */
module AlertBridge {
  import opened Bits
  import opened Common
  import opened ThreatPolicy
  import opened PolicyTable

  const QUEUE_SIZE: nat := 256
  const REASON_MAX: nat := 64

  datatype Alert = Alert(pid: u32, level: u32, time: u64, reason: string)

  datatype Queued = Queued(alert: Alert, sent: bool)

  /** A reason as the alert record stores it. */
  function Truncated(reason: string): (r: string)
    ensures r <= reason && |r| <= 63 && (r == reason || |r| == 63)
  {
    if |reason| < REASON_MAX then reason else reason[..REASON_MAX - 1]
  }

  /** The queued alerts that have not been sent, in order. */
  function Pending(q: seq<Queued>): seq<Alert> {
    if q == [] then []
    else
      var e := q[|q| - 1];
      Pending(q[..|q| - 1]) + if e.sent then [] else [e.alert]
  }

  lemma PendingAppend(q: seq<Queued>, e: Queued)
    ensures Pending(q + [e]) == Pending(q) + if e.sent then [] else [e.alert]
  {
    assert (q + [e])[..|q|] == q;
  }

  /** Every accepted alert is either emitted or pending, and counted once. */
  ghost predicate Conserved(accepted: seq<Alert>, log: seq<Alert>, pending: seq<Alert>) {
    multiset(accepted) == multiset(log) + multiset(pending)
  }

  /** The alert map: the level last written for each process. `lands` says which
      of the writes, by number, the map takes.
    */
  function AlertMap(log: seq<Alert>, lands: nat -> bool): map<u32, u32> {
    if log == [] then map[]
    else
      var n := |log| - 1;
      var before := AlertMap(log[..n], lands);
      if lands(n) then before[log[n].pid := log[n].level] else before
  }

  /** `st` is the state a table has for a process, fresh if it has none. */
  ghost predicate LookedUp(t: seq<Policy>, pid: u32, st: Policy) {
    || (exists j :: 0 <= j < |t| && Holds(t[j], pid) && st == t[j])
    || (st == Fresh(pid) && forall j :: 0 <= j < |t| ==> !Holds(t[j], pid))
  }

  /** Within capacity a lookup finds the state of the process's own signals. */
  lemma MapLookup(run: seq<Event>, t: seq<Policy>, pid: u32, st: Policy)
    requires Reaches(run, t) && |Pids(run)| <= TABLE_SIZE && LookedUp(t, pid, st)
    ensures st == StateAfter(pid, Of(run, pid))
  {
    hide Judge, StateAfter, Of, Pids, Reaches;
    TableIsMap(run, t);
    if pid !in Pids(run) {
      OfAbsent(run, pid);
      StateAppend(pid, [], Signal(true, 1));
    }
  }

  /** The map marks a process malicious. */
  predicate MarkedMalicious(log: seq<Alert>, lands: nat -> bool, pid: u32) {
    pid in AlertMap(log, lands) && AlertMap(log, lands)[pid] == MALICIOUS
  }

  predicate AllSuspicious(pending: seq<Alert>) {
    forall i :: 0 <= i < |pending| ==> pending[i].level == SUSPICIOUS
  }

  /** A flush writes the queued suspicious alerts after the immediate malicious
      ones, older or newer: a mark survives it if and only if no pending alert
      of the process lands.
    */
  lemma {:induction false} MarkSurvivesFlush(log: seq<Alert>, pending: seq<Alert>, lands: nat -> bool, pid: u32)
    requires AllSuspicious(pending)
    ensures MarkedMalicious(log + pending, lands, pid) <==>
      MarkedMalicious(log, lands, pid) && forall i :: 0 <= i < |pending| && lands(|log| + i) ==> pending[i].pid != pid
  {
    if pending == [] {
      assert log + pending == log;
    } else {
      var n := |pending| - 1;
      MarkSurvivesFlush(log, pending[..n], lands, pid);
      assert (log + pending)[..|log| + n] == log + pending[..n];
      assert forall i :: 0 <= i < n ==> pending[..n][i] == pending[i];
    }
  }

  lemma ConservedFlush(accepted: seq<Alert>, log: seq<Alert>, pending: seq<Alert>)
    requires Conserved(accepted, log, pending)
    ensures Conserved(accepted, log + pending, Pending([]))
  {
  }

  class Bridge {
    const table: array<Policy>
    const queue: array<Queued>
    var count: nat
    /** The alerts written to the map and the stream, in order. */
    var log: seq<Alert>
    var processed: u64
    /** Every signal so far, and every alert the policy let through. */
    ghost var run: seq<Event>
    ghost var accepted: seq<Alert>

    ghost predicate Valid()
      reads this, table, queue
    {
      && table.Length == TABLE_SIZE
      && queue.Length == QUEUE_SIZE
      && count <= QUEUE_SIZE
      && Reaches(run, table[..])
      && Conserved(accepted, log, Pending(queue[..count]))
      && AllSuspicious(Pending(queue[..count]))
      && processed == |log| % WORD64
    }

    constructor ()
      ensures Valid() && fresh(table) && fresh(queue)
      ensures run == [] && accepted == [] && log == [] && count == 0
    {
      table := new Policy[TABLE_SIZE](_ => Policy(false, 0, 0, 0, 0, 0));
      queue := new Queued[QUEUE_SIZE](_ => Queued(Alert(0, 0, 0, ""), false));
      count, log, processed, run, accepted := 0, [], 0, [], [];
    }

    /** Looks a process up, claiming a slot for it if it has none. */
    method GetPolicyState(pid: u32) returns (i: nat)
      requires table.Length == TABLE_SIZE
      modifies table
      ensures IsSlotFor(old(table[..]), pid, i)
      ensures i < table.Length && table[..] == Claimed(old(table[..]), pid, i)
      ensures Holds(table[i], pid)
    {
      var free := -1;
      for k := 0 to TABLE_SIZE
        invariant table[..] == old(table[..])
        invariant forall j :: 0 <= j < k ==> !Holds(table[j], pid)
        invariant -1 <= free < k
        invariant free < 0 ==> forall j :: 0 <= j < k ==> table[j].used
        invariant free >= 0 ==> !table[free].used && forall j :: 0 <= j < free ==> table[j].used
      {
        if Holds(table[k], pid) {
          return k;
        }
        if !table[k].used && free < 0 {
          free := k;
        }
      }
      i := if free >= 0 then free else pid % TABLE_SIZE;
      table[i] := Fresh(pid);
    }

    /** Runs the policy on a signal and stores the process's new state. */
    method ApplyThreatPolicy(pid: u32, s: Signal) returns (v: Verdict, ghost before: Policy)
      requires table.Length == TABLE_SIZE
      modifies table
      ensures before.pid == pid && before.used && v == Judge(before, s)
      ensures TableStep(old(table[..]), pid, s, table[..])
      ensures LookedUp(old(table[..]), pid, before)
    {
      hide Judge;
      ghost var t := table[..];
      var i := GetPolicyState(pid);
      before := table[i];
      v := Judge(table[i], s);
      table[i] := v.state;
      assert table[..] == Applied(t, pid, s, i);
    }

    /** Sends one alert to the map and the stream. */
    method EmitAlert(a: Alert)
      modifies this`log, this`processed
      requires processed == |log| % WORD64
      ensures log == old(log) + [a] && processed == |log| % WORD64
    {
      CountUp(|log|, WORD64);
      log := log + [a];
      processed := (processed + 1) % WORD64;
    }

    /** Sends every queued alert that has not been sent, and empties the queue. */
    method FlushAlerts()
      requires Valid()
      modifies this`log, this`processed, this`count
      ensures Valid() && count == 0
      ensures log == old(log) + old(Pending(queue[..count]))
    {
      hide Reaches, Pending, Conserved;
      ghost var q := queue[..count];
      ConservedFlush(accepted, log, Pending(q));
      NonePending();
      for i := 0 to count
        invariant count == old(count) && queue[..count] == q && processed == |log| % WORD64
        invariant log == old(log) + Pending(q[..i])
      {
        assert q[..i + 1] == q[..i] + [q[i]];
        PendingAppend(q[..i], q[i]);
        if !queue[i].sent {
          EmitAlert(queue[i].alert);
        }
      }
      assert q[..count] == q;
      count := 0;
      assert queue[..0] == [];
    }

    /** Appends an alert to a queue with room, sending it first if it cannot wait. */
    method AppendAlert(a: Alert, immediate: bool)
      requires Valid() && count < QUEUE_SIZE && (!immediate ==> a.level == SUSPICIOUS)
      modifies this`log, this`processed, this`count, this`accepted, queue
      ensures Valid() && accepted == old(accepted) + [a] && count == old(count) + 1
      ensures log == if immediate then old(log) + [a] else old(log)
      ensures Pending(queue[..count]) == old(Pending(queue[..count])) + if immediate then [] else [a]
    {
      hide Reaches, Pending, Conserved;
      ghost var q := queue[..count];
      queue[count] := Queued(a, false);
      count := count + 1;
      if immediate {
        EmitAlert(a);
        queue[count - 1] := Queued(a, true);
      }
      accepted := accepted + [a];
      assert queue[..count] == q + [Queued(a, immediate)];
      PendingAppend(q, Queued(a, immediate));
      ConservedNext(old(accepted), old(log), Pending(q), a, immediate);
    }

    /** Takes an accepted alert: a full queue is flushed first, so none is lost. */
    method EnqueueAlert(a: Alert, immediate: bool)
      requires Valid() && (!immediate ==> a.level == SUSPICIOUS)
      modifies this`log, this`processed, this`count, this`accepted, queue
      ensures Valid() && accepted == old(accepted) + [a] && 0 < count <= QUEUE_SIZE
      ensures log == old(log)
                     + (if old(count) == QUEUE_SIZE then old(Pending(queue[..count])) else [])
                     + (if immediate then [a] else [])
      ensures Pending(queue[..count]) == (if old(count) == QUEUE_SIZE then [] else old(Pending(queue[..count])))
                                         + (if immediate then [] else [a])
      ensures count == if old(count) == QUEUE_SIZE then 1 else old(count) + 1
    {
      hide Reaches, Pending, Conserved;
      if count >= QUEUE_SIZE {
        FlushAlerts();
        assert queue[..count] == [];
        NonePending();
      }
      AppendAlert(a, immediate);
    }

    /** A signal: judged, and if not suppressed turned into an alert, sent at
        once when its effective level is malicious. The signal's time is read
        for the policy and `stamp` for the alert record.
      */
    method Raise(pid: u32, s: Signal, stamp: u64, reason: string) returns (v: Verdict)
      requires Valid()
      modifies this, table, queue
      ensures Valid() && run == old(run) + [Event(pid, s)]
      ensures |Pids(old(run))| <= TABLE_SIZE ==> v == Judge(StateAfter(pid, Of(old(run), pid)), s)
      ensures v.suppress ==> accepted == old(accepted) && log == old(log) && count == old(count)
      ensures v.suppress ==> Pending(queue[..count]) == old(Pending(queue[..count]))
      ensures !v.suppress ==>
        var a := Alert(pid, v.effective, stamp, Truncated(reason));
        var full, immediate := old(count) == QUEUE_SIZE, v.effective == MALICIOUS;
        && accepted == old(accepted) + [a] && count == (if full then 1 else old(count) + 1)
        && log == old(log) + (if full then old(Pending(queue[..count])) else []) + (if immediate then [a] else [])
        && Pending(queue[..count]) == (if full then [] else old(Pending(queue[..count])))
                                      + (if immediate then [] else [a])
    {
      hide Judge, StateAfter, Of, Pids, Reaches, TableStep, Pending, Conserved, Truncated;
      v := Decide(pid, s);
      if !v.suppress {
        EnqueueAlert(Alert(pid, v.effective, stamp, Truncated(reason)), v.effective == MALICIOUS);
      }
    }

    /** The policy decision, recorded in the run. */
    method Decide(pid: u32, s: Signal) returns (v: Verdict)
      requires Valid()
      modifies this`run, table
      ensures Valid() && run == old(run) + [Event(pid, s)]
      ensures |Pids(old(run))| <= TABLE_SIZE ==> v == Judge(StateAfter(pid, Of(old(run), pid)), s)
      ensures v.effective in {SUSPICIOUS, MALICIOUS}
    {
      hide Judge, StateAfter, Of, Pids, Reaches, TableStep, Pending, Conserved;
      ghost var t := table[..];
      ghost var before;
      v, before := ApplyThreatPolicy(pid, s);
      NeverDowngraded(before, s);
      ReachesNext(run, t, pid, s, table[..]);
      if |Pids(run)| <= TABLE_SIZE { MapLookup(run, t, pid, before); }
      run := run + [Event(pid, s)];
    }

    /** The last flush: nothing accepted is left unsent. */
    method Teardown()
      requires Valid()
      modifies this`log, this`processed, this`count
      ensures Valid() && count == 0 && multiset(log) == multiset(accepted)
    {
      FlushAlerts();
      assert Pending(queue[..0]) == [];
    }
  }

  /** A process signalled as suspicious and then as malicious loses its mark to
      the alert still in the queue, when the next flush writes that one.
    */
  method FlushOverwritesMark(pid: u32, reason: string) returns (b: Bridge, ghost before: seq<Alert>)
    ensures b.Valid() && fresh(b) && b.run == [Event(pid, Signal(true, 1)), Event(pid, Signal(false, 2))]
    ensures before <= b.log
    ensures forall lands: nat -> bool :: AllLand(lands) ==>
      MarkedMalicious(before, lands, pid) && !MarkedMalicious(b.log, lands, pid)
  {
    hide Judge, StateAfter, Of, Pids, Reaches, Pending, Conserved, AlertMap, MarkedMalicious, AllSuspicious, AllLand;
    b := new Bridge();
    NonePending();
    assert b.queue[..b.count] == [];
    TwoSignals(pid);
    var v := b.Raise(pid, Signal(true, 1), 1, reason);
    assert b.run == [Event(pid, Signal(true, 1))];
    ghost var waiting := Pending(b.queue[..b.count]);
    var w := b.Raise(pid, Signal(false, 2), 2, reason);
    before := b.log;
    b.FlushAlerts();
    assert b.log == before + waiting;
    OverwrittenMark(before, waiting, pid);
  }

  /** The map takes every write. */
  ghost predicate AllLand(lands: nat -> bool) {
    forall n: nat :: lands(n)
  }

  lemma OverwrittenMark(before: seq<Alert>, waiting: seq<Alert>, pid: u32)
    requires |before| == 1 && before[0].pid == pid && before[0].level == MALICIOUS
    requires |waiting| == 1 && waiting[0].pid == pid && waiting[0].level == SUSPICIOUS
    ensures forall lands: nat -> bool :: AllLand(lands) ==>
      MarkedMalicious(before, lands, pid) && !MarkedMalicious(before + waiting, lands, pid)
  {
    forall lands: nat -> bool | AllLand(lands)
      ensures MarkedMalicious(before, lands, pid) && !MarkedMalicious(before + waiting, lands, pid)
    {
      MarkSurvivesFlush(before, waiting, lands, pid);
    }
  }

  /** Accepted alerts are the processed ones and the ones still to be sent. */
  lemma ConservedCounts(accepted: seq<Alert>, log: seq<Alert>, pending: seq<Alert>)
    requires Conserved(accepted, log, pending)
    ensures |accepted| == |log| + |pending|
  {
    assert |multiset(accepted)| == |multiset(log) + multiset(pending)|;
  }

  lemma FirstVerdicts(pid: u32)
    ensures
      var v := Judge(Fresh(pid), Signal(true, 1));
      var w := Judge(v.state, Signal(false, 2));
      !v.suppress && v.effective == SUSPICIOUS && !w.suppress && w.effective == MALICIOUS
  {
  }

  /** Neither of two first signals of a process, one of each kind, is suppressed
      or escalated.
    */
  lemma TwoSignals(pid: u32)
    ensures
      var run := [Event(pid, Signal(true, 1))];
      var v := Judge(StateAfter(pid, Of([], pid)), Signal(true, 1));
      var w := Judge(StateAfter(pid, Of(run, pid)), Signal(false, 2));
      && !v.suppress && v.effective == SUSPICIOUS && !w.suppress && w.effective == MALICIOUS
      && |Pids([])| <= TABLE_SIZE && |Pids(run)| <= TABLE_SIZE
  {
    hide Judge, StateAfter;
    var run := [Event(pid, Signal(true, 1))];
    assert run[..0] == [] && Of([], pid) == [];
    assert Of(run, pid) == [] + [Signal(true, 1)];
    StateAppend(pid, [], Signal(true, 1));
    FirstVerdicts(pid);
    assert Pids(run) == {pid} && Pids([]) == {};
  }

  lemma NonePending()
    ensures Pending([]) == []
  {
  }

  lemma ReachesNext(run: seq<Event>, t: seq<Policy>, pid: u32, s: Signal, t': seq<Policy>)
    requires Reaches(run, t) && TableStep(t, pid, s, t')
    ensures Reaches(run + [Event(pid, s)], t')
  {
    assert (run + [Event(pid, s)])[..|run|] == run;
  }

  lemma ConservedNext(accepted: seq<Alert>, log: seq<Alert>, pending: seq<Alert>, a: Alert, immediate: bool)
    requires Conserved(accepted, log, pending)
    ensures Conserved(accepted + [a], if immediate then log + [a] else log, pending + if immediate then [] else [a])
  {
  }
}

/** The bounded table of per-process policy states: linear search, first free
    slot, and eviction of a fixed slot when it is full.
  */
module PolicyTable {
  import opened Bits
  import opened Common
  import opened ThreatPolicy

  const TABLE_SIZE: nat := 1024

  predicate Holds(p: Policy, pid: u32) {
    p.used && p.pid == pid
  }

  /** The slot that a lookup returns: the process's own, else the first free
      one, else the one its number falls on.
    */
  ghost predicate IsSlotFor(table: seq<Policy>, pid: u32, i: nat) {
    && i < |table|
    && if exists j :: 0 <= j < |table| && Holds(table[j], pid) then
         Holds(table[i], pid) && forall j :: 0 <= j < i ==> !Holds(table[j], pid)
       else if exists j :: 0 <= j < |table| && !table[j].used then
         !table[i].used && forall j :: 0 <= j < i ==> table[j].used
       else
         i == pid % TABLE_SIZE
  }

  /** The table once the slot for a process has been looked up or claimed. */
  function Claimed(table: seq<Policy>, pid: u32, i: nat): (r: seq<Policy>)
    requires i < |table|
  {
    if Holds(table[i], pid) then table else table[i := Fresh(pid)]
  }

  /** No process has two slots. */
  predicate Unique(table: seq<Policy>) {
    forall i, j :: 0 <= i < j < |table| && table[i].used && table[j].used ==> table[i].pid != table[j].pid
  }

  predicate Empty(table: seq<Policy>) {
    forall i :: 0 <= i < |table| ==> !table[i].used
  }

  /** One signal on the table: claim the slot, judge, store. */
  ghost predicate TableStep(t: seq<Policy>, pid: u32, s: Signal, t': seq<Policy>) {
    exists i :: IsSlotFor(t, pid, i) && t' == Applied(t, pid, s, i)
  }

  function Applied(t: seq<Policy>, pid: u32, s: Signal, i: nat): (r: seq<Policy>)
    requires i < |t|
  {
    var c := Claimed(t, pid, i);
    c[i := Judge(c[i], s).state]
  }

  lemma JudgeKeepsOwner(st: Policy, s: Signal)
    ensures Judge(st, s).state.used == st.used && Judge(st, s).state.pid == st.pid
  {
  }

  // ------------------------------------------------------------------- runs

  datatype Event = Event(pid: u32, signal: Signal)

  /** `t` is a table that a run of signals leads to from an empty one. */
  ghost predicate Reaches(run: seq<Event>, t: seq<Policy>)
    decreases |run|
  {
    if run == [] then |t| == TABLE_SIZE && Empty(t)
    else
      var n := |run| - 1;
      exists u :: Reaches(run[..n], u) && TableStep(u, run[n].pid, run[n].signal, t)
  }

  /** The signals of one process in a run. */
  function Of(run: seq<Event>, pid: u32): seq<Signal> {
    if run == [] then []
    else
      var e := run[|run| - 1];
      Of(run[..|run| - 1], pid) + if e.pid == pid then [e.signal] else []
  }

  function Pids(run: seq<Event>): (r: set<u32>) {
    set i | 0 <= i < |run| :: run[i].pid
  }

  lemma StepKeepsUnique(t: seq<Policy>, pid: u32, s: Signal, i: nat)
    requires Unique(t) && IsSlotFor(t, pid, i)
    ensures i < |t|
    ensures |Applied(t, pid, s, i)| == |t| && Unique(Applied(t, pid, s, i))
    ensures Holds(Applied(t, pid, s, i)[i], pid)
  {
    hide Judge;
    JudgeKeepsOwner(Claimed(t, pid, i)[i], s);
    assert forall j :: 0 <= j < |t| && j != i ==> !Holds(t[j], pid);
  }

  /** No reachable table holds a process twice, evictions included. */
  lemma {:induction false} AlwaysUnique(run: seq<Event>, t: seq<Policy>)
    requires Reaches(run, t)
    ensures |t| == TABLE_SIZE && Unique(t)
    decreases |run|
  {
    if run != [] {
      var n := |run| - 1;
      var u :| Reaches(run[..n], u) && TableStep(u, run[n].pid, run[n].signal, t);
      AlwaysUnique(run[..n], u);
      var i :| IsSlotFor(u, run[n].pid, i) && t == Applied(u, run[n].pid, run[n].signal, i);
      StepKeepsUnique(u, run[n].pid, run[n].signal, i);
    }
  }

  // -------------------------------------------- agreement with an unbounded map

  /** The table holds exactly the processes of the run, each in the state its
      own signals alone lead to.
    */
  ghost predicate Agrees(t: seq<Policy>, run: seq<Event>) {
    && |t| == TABLE_SIZE
    && Unique(t)
    && (forall i :: 0 <= i < |t| && t[i].used ==>
          t[i].pid in Pids(run) && t[i] == StateAfter(t[i].pid, Of(run, t[i].pid)))
    && (forall pid :: pid in Pids(run) ==> exists i :: 0 <= i < |t| && Holds(t[i], pid))
  }

  /** The processes of a full table. */
  function OwnerList(t: seq<Policy>): seq<u32> {
    seq(|t|, i requires 0 <= i < |t| => t[i].pid)
  }

  /** Below capacity a new process finds a free slot. */
  lemma FreeSlot(t: seq<Policy>, run: seq<Event>, pid: u32)
    requires Agrees(t, run) && pid !in Pids(run) && |Pids(run) + {pid}| <= TABLE_SIZE
    ensures exists j :: 0 <= j < |t| && !t[j].used
  {
    hide StateAfter, Of;
    assert |Pids(run) + {pid}| == |Pids(run)| + 1;
    if forall j :: 0 <= j < |t| ==> t[j].used {
      DistinctCount(OwnerList(t));
      SubsetCount(Elements(OwnerList(t)), Pids(run));
    }
  }

  lemma PidsAppend(run: seq<Event>)
    requires run != []
    ensures Pids(run) == Pids(run[..|run| - 1]) + {run[|run| - 1].pid}
  {
    var n := |run| - 1;
    forall p | p in Pids(run) ensures p in Pids(run[..n]) + {run[n].pid} {
      var i :| 0 <= i < |run| && run[i].pid == p;
      assert i < n ==> run[..n][i].pid == p;
    }
    forall p | p in Pids(run[..n]) ensures p in Pids(run) {
      var i :| 0 <= i < n && run[..n][i].pid == p;
      assert run[i].pid == p;
    }
    assert run[n].pid in Pids(run);
  }

  lemma {:induction false} OfAbsent(run: seq<Event>, pid: u32)
    requires pid !in Pids(run)
    ensures Of(run, pid) == []
  {
    if run != [] {
      PidsAppend(run);
      OfAbsent(run[..|run| - 1], pid);
    }
  }

  lemma OfLast(run: seq<Event>, pid: u32)
    requires run != []
    ensures
      var e, before := run[|run| - 1], Of(run[..|run| - 1], pid);
      Of(run, pid) == if e.pid == pid then before + [e.signal] else before
  {
  }

  /** A slot that does not hold the process is given out only if none does. */
  lemma SlotOrNone(t: seq<Policy>, pid: u32, i: nat)
    requires IsSlotFor(t, pid, i)
    ensures i < |t|
    ensures Holds(t[i], pid) || forall j :: 0 <= j < |t| ==> !Holds(t[j], pid)
  {
  }

  lemma AgreesOn(t: seq<Policy>, run: seq<Event>, pid: u32, i: nat)
    requires Agrees(t, run) && i < |t|
    requires Holds(t[i], pid) || forall j :: 0 <= j < |t| ==> !Holds(t[j], pid)
    ensures if Holds(t[i], pid) then t[i] == StateAfter(pid, Of(run, pid)) else pid !in Pids(run)
  {
    hide StateAfter, Of, Pids, Unique;
  }

  /** The slot a step updates ends in the state the process's signals lead to. */
  lemma StepState(u: seq<Policy>, run: seq<Event>, i: nat)
    requires run != []
    requires Agrees(u, run[..|run| - 1]) && IsSlotFor(u, run[|run| - 1].pid, i)
    ensures
      var e := run[|run| - 1];
      Applied(u, e.pid, e.signal, i)[i] == StateAfter(e.pid, Of(run, e.pid))
  {
    hide Judge, StateAfter, Of, Pids, Agrees, IsSlotFor;
    var n := |run| - 1;
    var e, before := run[n], run[..n];
    var h := Of(before, e.pid);
    OfLast(run, e.pid);
    StateAppend(e.pid, h, e.signal);
    SlotOrNone(u, e.pid, i);
    AgreesOn(u, before, e.pid, i);
    if !Holds(u[i], e.pid) {
      OfAbsent(before, e.pid);
    }
  }

  /** Below capacity a step never takes another process's slot. */
  lemma StepKeepsOthers(u: seq<Policy>, run: seq<Event>, pid: u32, i: nat)
    requires Agrees(u, run) && IsSlotFor(u, pid, i) && |Pids(run) + {pid}| <= TABLE_SIZE
    ensures u[i].used ==> u[i].pid == pid
  {
    hide StateAfter, Of, Pids;
    if pid !in Pids(run) {
      FreeSlot(u, run, pid);
    }
  }

  lemma StepAgrees(u: seq<Policy>, run: seq<Event>, i: nat)
    requires run != [] && |Pids(run)| <= TABLE_SIZE
    requires Agrees(u, run[..|run| - 1]) && IsSlotFor(u, run[|run| - 1].pid, i)
    ensures Agrees(Applied(u, run[|run| - 1].pid, run[|run| - 1].signal, i), run)
  {
    hide Judge, StateAfter, Of, Pids, IsSlotFor;
    var n := |run| - 1;
    var e, before := run[n], run[..n];
    PidsAppend(run);
    StepKeepsOthers(u, before, e.pid, i);
    StepState(u, run, i);
    StepKeepsUnique(u, e.pid, e.signal, i);
    var t := Applied(u, e.pid, e.signal, i);
    forall j | 0 <= j < |t| && t[j].used
      ensures t[j].pid in Pids(run) && t[j] == StateAfter(t[j].pid, Of(run, t[j].pid))
    {
      if j != i {
        assert t[j] == u[j] && t[j].pid != e.pid;
        OfLast(run, u[j].pid);
      }
    }
    forall pid | pid in Pids(run) ensures exists j :: 0 <= j < |t| && Holds(t[j], pid) {
      if pid == e.pid {
        assert Holds(t[i], pid);
      } else {
        var j :| 0 <= j < |u| && Holds(u[j], pid);
        assert j != i && t[j] == u[j];
      }
    }
  }

  /** While at most 1024 processes have signalled, the bounded table is an
      unbounded map from processes to the state of their own signals.
    */
  lemma {:induction false} TableIsMap(run: seq<Event>, t: seq<Policy>)
    requires Reaches(run, t) && |Pids(run)| <= 1024
    ensures Agrees(t, run)
    decreases |run|
  {
    if run != [] {
      var n := |run| - 1;
      var u :| Reaches(run[..n], u) && TableStep(u, run[n].pid, run[n].signal, t);
      PidsAppend(run);
      SubsetCount(Pids(run[..n]), Pids(run));
      TableIsMap(run[..n], u);
      var i :| IsSlotFor(u, run[n].pid, i) && t == Applied(u, run[n].pid, run[n].signal, i);
      StepAgrees(u, run, i);
    }
  }
}

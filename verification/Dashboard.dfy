/** The dashboard: a record filled from a line, the ring of recent records and
    the allowed and blocked totals, over the whole stream of lines.
  */
module Dashboard {
  import opened Bits
  import opened Common
  import opened AuditJson
  import opened AuditLine

  const MAX_HISTORY := 256

  // --------------------------------------------------------------- one line, in place

  class TuiEvent {
    var action: string
    var pid: nat
    var tid: nat
    var nr: nat
    var ret: int
    var rip: string
    var offset: string
    var moduleId: nat
    var timestamp: string
    var isFexit: bool

    constructor ()
      ensures Value() == Record("", 0, 0, 0, 0, "", "", 0, "", false)
    {
      action, pid, tid, nr, ret := "", 0, 0, 0, 0;
      rip, offset, moduleId, timestamp, isFexit := "", "", 0, "", false;
    }

    function Value(): Record
      reads this
    {
      Record(action, pid, tid, nr, ret, rip, offset, moduleId, timestamp, isFexit)
    }

    /** Clears the event and fills it from a line; a member that is missing or
        of the wrong kind stays cleared.
      */
    method Parse(line: string) returns (ok: bool)
      modifies this
      ensures ok == ParseEvent(line).Some?
      ensures Value() == if ok then ParseEvent(line).value else Record("", 0, 0, 0, 0, "", "", 0, "", false)
    {
      hide GetStr, GetUint, GetLong;
      action, pid, tid, nr, ret := "", 0, 0, 0, 0;
      rip, offset, moduleId, timestamp, isFexit := "", "", 0, "", false;
      var name := GetStr(line, "action", 16);
      if name.None? {
        return false;
      }
      action := name.value;
      pid := UnwrapOr(GetUint(line, "pid"), pid);
      tid := UnwrapOr(GetUint(line, "tid"), tid);
      nr := UnwrapOr(GetUint(line, "syscall_nr"), nr);
      rip := UnwrapOr(GetStr(line, "rip", 20), rip);
      offset := UnwrapOr(GetStr(line, "offset", 20), offset);
      moduleId := UnwrapOr(GetUint(line, "module"), moduleId);
      timestamp := UnwrapOr(GetStr(line, "ts", 32), timestamp);
      isFexit := action == "FEXIT";
      if isFexit {
        ret := UnwrapOr(GetLong(line, "ret"), ret);
      }
      ok := true;
    }
  }

  // -------------------------------------------------------------------------- kinds

  /** The actions the dashboard tells apart. */
  datatype Kind = Allow | AllowCfi | Block | CfiFail | NrMismatch | ForkTrack | Fexit | Permissive | DlopenExt
                | Learn | LibDeny | ShadowOk | ShadowFail | Fallback | KobjDeny | OtherKind

  function KindOf(action: string): Kind {
    if action == "ALLOW" then Allow
    else if action == "ALLOW+CFI" then AllowCfi
    else if action == "BLOCK" then Block
    else if action == "CFI-FAIL" then CfiFail
    else if action == "NR-MISMATCH" then NrMismatch
    else if action == "FORK-TRACK" then ForkTrack
    else if action == "FEXIT" then Fexit
    else if action == "PERMISSIVE" then Permissive
    else if action == "DLOPEN-EXT" then DlopenExt
    else if action == "LEARN" then Learn
    else if action == "LIB-DENY" then LibDeny
    else if action == "SHADOW-OK" then ShadowOk
    else if action == "SHADOW-FAIL" then ShadowFail
    else if action == "FALLBACK" then Fallback
    else if action == "KOBJ-DENY" then KobjDeny
    else OtherKind
  }

  const ALLOWED := {Allow, AllowCfi}
  const BLOCKED := {Block, CfiFail, NrMismatch, Permissive, LibDeny, ShadowFail, Fallback, KobjDeny}

  /** How many records are of one of the kinds. */
  function Count(rs: seq<Record>, kinds: set<Kind>): nat {
    if rs == [] then 0
    else Count(rs[..|rs| - 1], kinds) + if KindOf(rs[|rs| - 1].action) in kinds then 1 else 0
  }

  // ------------------------------------------------------------------------- totals

  function Inc(x: nat): nat {
    (x + 1) % WORD64
  }

  datatype Counters = Counters(
    total: nat, allow: nat, block: nat, cfiOk: nat, cfiFail: nat, nrMismatch: nat, fork: nat, fexit: nat,
    permissive: nat, learn: nat, libDeny: nat, shadowOk: nat, shadowFail: nat, fallback: nat, kobjDeny: nat)

  const ZERO := Counters(0, 0, 0, 0, 0, 0, 0, 0, 0, 0, 0, 0, 0, 0, 0)

  /** The counters after one more record. */
  function Bumped(was: Counters, kind: Kind): Counters {
    var c := was.(total := Inc(was.total));
    match kind
    case Allow => c.(allow := Inc(c.allow))
    case AllowCfi => c.(allow := Inc(c.allow), cfiOk := Inc(c.cfiOk))
    case Block => c.(block := Inc(c.block))
    case CfiFail => c.(cfiFail := Inc(c.cfiFail), block := Inc(c.block))
    case NrMismatch => c.(nrMismatch := Inc(c.nrMismatch), block := Inc(c.block))
    case ForkTrack => c.(fork := Inc(c.fork))
    case Fexit => c.(fexit := Inc(c.fexit))
    case Permissive => c.(permissive := Inc(c.permissive), block := Inc(c.block))
    case DlopenExt => c
    case Learn => c.(learn := Inc(c.learn))
    case LibDeny => c.(libDeny := Inc(c.libDeny), block := Inc(c.block))
    case ShadowOk => c.(shadowOk := Inc(c.shadowOk))
    case ShadowFail => c.(shadowFail := Inc(c.shadowFail), block := Inc(c.block))
    case Fallback => c.(fallback := Inc(c.fallback), block := Inc(c.block))
    case KobjDeny => c.(kobjDeny := Inc(c.kobjDeny), block := Inc(c.block))
    case OtherKind => c
  }

  /** A counter shows how many records of the log are of its kinds, within a
      64-bit word.
    */
  ghost predicate Shows(x: nat, log: seq<Record>, kinds: set<Kind>) {
    x == Count(log, kinds) % WORD64
  }

  ghost predicate Totals(log: seq<Record>, c: Counters) {
    && c.total == |log| % WORD64
    && Shows(c.allow, log, ALLOWED) && Shows(c.block, log, BLOCKED)
    && Shows(c.cfiOk, log, {AllowCfi}) && Shows(c.cfiFail, log, {CfiFail})
    && Shows(c.nrMismatch, log, {NrMismatch}) && Shows(c.fork, log, {ForkTrack}) && Shows(c.fexit, log, {Fexit})
    && Shows(c.permissive, log, {Permissive}) && Shows(c.learn, log, {Learn}) && Shows(c.libDeny, log, {LibDeny})
    && Shows(c.shadowOk, log, {ShadowOk}) && Shows(c.shadowFail, log, {ShadowFail})
    && Shows(c.fallback, log, {Fallback}) && Shows(c.kobjDeny, log, {KobjDeny})
  }

  lemma ShowsNext(x: nat, log: seq<Record>, r: Record, kinds: set<Kind>)
    requires Shows(x, log, kinds)
    ensures Shows(if KindOf(r.action) in kinds then Inc(x) else x, log + [r], kinds)
  {
    hide KindOf;
    CountUp(Count(log, kinds), WORD64);
  }

  lemma TotalsStep(log: seq<Record>, r: Record, c: Counters)
    requires Totals(log, c)
    ensures Totals(log + [r], Bumped(c, KindOf(r.action)))
  {
    hide KindOf, Shows, Inc;
    TotalNext(|log|);
    ShowsNext(c.allow, log, r, ALLOWED);
    ShowsNext(c.block, log, r, BLOCKED);
    ShowsNext(c.cfiOk, log, r, {AllowCfi});
    ShowsNext(c.cfiFail, log, r, {CfiFail});
    ShowsNext(c.nrMismatch, log, r, {NrMismatch});
    ShowsNext(c.fork, log, r, {ForkTrack});
    ShowsNext(c.fexit, log, r, {Fexit});
    ShowsNext(c.permissive, log, r, {Permissive});
    ShowsNext(c.learn, log, r, {Learn});
    ShowsNext(c.libDeny, log, r, {LibDeny});
    ShowsNext(c.shadowOk, log, r, {ShadowOk});
    ShowsNext(c.shadowFail, log, r, {ShadowFail});
    ShowsNext(c.fallback, log, r, {Fallback});
    ShowsNext(c.kobjDeny, log, r, {KobjDeny});
  }

  lemma TotalNext(n: nat)
    ensures Inc(n % WORD64) == (n + 1) % WORD64
  {
    CountUp(n, WORD64);
  }

  // --------------------------------------------------------------- per system call

  const MAX_SYSCALLS := 512

  /** One row of the table of system calls. */
  datatype SysStats = SysStats(nr: nat, allow: nat, block: nat, fexit: nat)

  /** The kinds that a row counts. */
  const PER_CALL := {Allow, AllowCfi, Block, Fexit}

  /** How many records of one system call are of one of the kinds. */
  function CountNr(rs: seq<Record>, nr: nat, kinds: set<Kind>): nat {
    if rs == [] then 0
    else
      var r := rs[|rs| - 1];
      CountNr(rs[..|rs| - 1], nr, kinds) + if KindOf(r.action) in kinds && r.nr == nr then 1 else 0
  }

  lemma CountNrNext(rs: seq<Record>, r: Record, nr: nat, kinds: set<Kind>)
    ensures CountNr(rs + [r], nr, kinds) ==
      CountNr(rs, nr, kinds) + if KindOf(r.action) in kinds && r.nr == nr then 1 else 0
  {
    hide KindOf;
    assert (rs + [r])[..|rs|] == rs;
  }

  lemma {:induction false} CountNrSubset(rs: seq<Record>, nr: nat, a: set<Kind>, b: set<Kind>)
    requires a <= b
    ensures CountNr(rs, nr, a) <= CountNr(rs, nr, b)
  {
    hide KindOf;
    if rs != [] {
      CountNrSubset(rs[..|rs| - 1], nr, a, b);
    }
  }

  /** A row counts the whole log. */
  ghost predicate RowOk(e: SysStats, log: seq<Record>) {
    && e.allow == CountNr(log, e.nr, ALLOWED) % WORD64
    && e.block == CountNr(log, e.nr, {Block}) % WORD64
    && e.fexit == CountNr(log, e.nr, {Fexit}) % WORD64
  }

  /** One row a system call, each row right; while there is room, every system
      call counted has one.
    */
  ghost predicate TableOk(t: seq<SysStats>, log: seq<Record>) {
    && |t| <= MAX_SYSCALLS
    && (forall i, j :: 0 <= i < j < |t| ==> t[i].nr != t[j].nr)
    && (forall i :: 0 <= i < |t| ==> RowOk(t[i], log))
    && (|t| < MAX_SYSCALLS ==> forall nr: nat :: CountNr(log, nr, PER_CALL) > 0 ==> HasRow(t, nr))
  }

  predicate HasRow(t: seq<SysStats>, nr: nat) {
    exists i :: 0 <= i < |t| && t[i].nr == nr
  }

  function BumpedRow(e: SysStats, kind: Kind): SysStats {
    match kind
    case Allow => e.(allow := Inc(e.allow))
    case AllowCfi => e.(allow := Inc(e.allow))
    case Block => e.(block := Inc(e.block))
    case Fexit => e.(fexit := Inc(e.fexit))
    case _ => e
  }

  lemma RowNext(e: SysStats, log: seq<Record>, r: Record)
    requires RowOk(e, log)
    ensures RowOk(if r.nr == e.nr then BumpedRow(e, KindOf(r.action)) else e, log + [r])
  {
    hide KindOf;
    CountNrNext(log, r, e.nr, ALLOWED);
    CountNrNext(log, r, e.nr, {Block});
    CountNrNext(log, r, e.nr, {Fexit});
    TotalNext(CountNr(log, e.nr, ALLOWED));
    TotalNext(CountNr(log, e.nr, {Block}));
    TotalNext(CountNr(log, e.nr, {Fexit}));
  }

  /** A row for a system call that was never counted starts right. */
  lemma FreshRow(log: seq<Record>, nr: nat)
    requires CountNr(log, nr, PER_CALL) == 0
    ensures RowOk(SysStats(nr, 0, 0, 0), log)
  {
    hide CountNr;
    CountNrSubset(log, nr, ALLOWED, PER_CALL);
    CountNrSubset(log, nr, {Block}, PER_CALL);
    CountNrSubset(log, nr, {Fexit}, PER_CALL);
  }

  /** Adding a row for a new system call keeps the table right. */
  lemma TableGrows(t: seq<SysStats>, log: seq<Record>, nr: nat)
    requires TableOk(t, log) && |t| < MAX_SYSCALLS && !HasRow(t, nr)
    ensures TableOk(t + [SysStats(nr, 0, 0, 0)], log)
  {
    hide RowOk, CountNr;
    FreshRow(log, nr);
    var t' := t + [SysStats(nr, 0, 0, 0)];
    forall n: nat | CountNr(log, n, PER_CALL) > 0 ensures HasRow(t', n) {
      var i :| 0 <= i < |t| && t[i].nr == n;
      assert t'[i].nr == n;
    }
  }

  /** The table after a record: its row is bumped, if its kind is counted. */
  lemma TableNext(t: seq<SysStats>, log: seq<Record>, r: Record, i: int, t': seq<SysStats>)
    requires TableOk(t, log) && -1 <= i < |t|
    requires if i >= 0 then t[i].nr == r.nr
             else !HasRow(t, r.nr) && (|t| == MAX_SYSCALLS || KindOf(r.action) !in PER_CALL)
    requires t' == if i >= 0 then t[i := BumpedRow(t[i], KindOf(r.action))] else t
    ensures TableOk(t', log + [r])
  {
    hide KindOf, RowOk, CountNr, BumpedRow;
    forall k | 0 <= k < |t'| ensures RowOk(t'[k], log + [r]) && t'[k].nr == t[k].nr {
      RowNext(t[k], log, r);
      BumpedNr(t[k], KindOf(r.action));
    }
    forall nr: nat | |t| < MAX_SYSCALLS && CountNr(log + [r], nr, PER_CALL) > 0 ensures HasRow(t', nr) {
      CountNrNext(log, r, nr, PER_CALL);
      if CountNr(log, nr, PER_CALL) > 0 {
        var k :| 0 <= k < |t| && t[k].nr == nr;
        assert t'[k].nr == nr;
      } else {
        assert t'[i].nr == nr;
      }
    }
  }

  lemma BumpedNr(e: SysStats, kind: Kind)
    ensures BumpedRow(e, kind).nr == e.nr
  {
  }

  /** Records of other kinds leave every row right. */
  lemma TableSame(t: seq<SysStats>, log: seq<Record>, r: Record)
    requires TableOk(t, log) && KindOf(r.action) !in PER_CALL
    ensures TableOk(t, log + [r])
  {
    hide KindOf, RowOk, CountNr;
    forall k | 0 <= k < |t| ensures RowOk(t[k], log + [r]) {
      RowNext(t[k], log, r);
    }
    forall nr: nat | |t| < MAX_SYSCALLS && CountNr(log + [r], nr, PER_CALL) > 0 ensures HasRow(t, nr) {
      CountNrNext(log, r, nr, PER_CALL);
    }
  }

  // -------------------------------------------------------------------------- lines

  function SkipIndent(s: string): string {
    if s != [] && (s[0] == ' ' || s[0] == '\t') then SkipIndent(s[1..]) else s
  }

  /** Only blanks and tabs are skipped, and all of them. */
  lemma {:induction false} SkipIndentIs(indent: string, s: string)
    requires (forall i :: 0 <= i < |indent| ==> indent[i] == ' ' || indent[i] == '\t')
    requires s == "" || (s[0] != ' ' && s[0] != '\t')
    ensures SkipIndent(indent + s) == s
  {
    if indent == "" {
      assert indent + s == s;
    } else {
      assert (indent + s)[1..] == indent[1..] + s;
      SkipIndentIs(indent[1..], s);
    }
  }

  /** The record a line adds: indentation is skipped, and a line that is not an
      object or has no action adds none.
    */
  function Heard(line: string): Option<Record> {
    var p := SkipIndent(line);
    if p == [] || p[0] != '{' then None else ParseEvent(p)
  }

  function Records(lines: seq<string>): seq<Record> {
    if lines == [] then []
    else
      var rs := Records(lines[..|lines| - 1]);
      match Heard(lines[|lines| - 1])
      case None => rs
      case Some(r) => rs + [r]
  }

  const LINE_SIZE := 4096

  /** How many characters `fgets` takes: up to a newline, at most `n`. */
  function LineEnd(s: string, n: nat): (k: nat)
    ensures k <= |s| && k <= n
  {
    if s == [] || n == 0 then 0 else if s[0] == '\n' then 1 else 1 + LineEnd(s[1..], n - 1)
  }

  /** The stream as the reads of the line buffer cut it. */
  function Chunks(s: string): seq<string> {
    if s == [] then []
    else
      var k := LineEnd(s, LINE_SIZE - 1);
      [s[..k]] + Chunks(s[k..])
  }

  // --------------------------------------------------------------------- the screen

  /** Record number j of the log, if recent enough, is in its slot. */
  ghost predicate InRing(ring: seq<Record>, log: seq<Record>) {
    && |ring| == MAX_HISTORY
    && forall j :: 0 <= j < |log| && |log| - MAX_HISTORY <= j ==> ring[j % MAX_HISTORY] == log[j]
  }

  lemma RingStep(ring: seq<Record>, log: seq<Record>, r: Record)
    requires InRing(ring, log)
    ensures InRing(ring[|log| % MAX_HISTORY := r], log + [r])
  {
    var next := log + [r];
    forall j | 0 <= j < |next| && |next| - MAX_HISTORY <= j
      ensures ring[|log| % MAX_HISTORY := r][j % MAX_HISTORY] == next[j]
    {
      if j < |log| {
        assert ring[j % MAX_HISTORY] == log[j];
      }
    }
  }

  class Screen {
    const history: array<Record>
    var count: nat
    var idx: nat
    var counters: Counters
    var stats: seq<SysStats>
    ghost var log: seq<Record>

    ghost predicate Valid()
      reads this, history
    {
      && history.Length == MAX_HISTORY
      && count == (if |log| < MAX_HISTORY then |log| else MAX_HISTORY)
      && idx == |log| % MAX_HISTORY
      && InRing(history[..], log)
      && Totals(log, counters)
      && TableOk(stats, log)
    }

    constructor (blank: Record)
      ensures Valid() && log == [] && fresh(history)
    {
      history := new Record[MAX_HISTORY](_ => blank);
      count, idx, counters, stats, log := 0, 0, ZERO, [], [];
    }

    /** The row of a system call, added if there is room; -1 if there is none. */
    method GetStats(nr: nat) returns (i: int)
      requires TableOk(stats, log)
      modifies this`stats
      ensures TableOk(stats, log) && -1 <= i < |stats|
      ensures if i >= 0 then stats[i].nr == nr else !HasRow(stats, nr) && |stats| == MAX_SYSCALLS
      ensures old(stats) <= stats && |stats| <= |old(stats)| + 1
    {
      hide RowOk, CountNr;
      for k := 0 to |stats|
        invariant stats == old(stats) && forall j :: 0 <= j < k ==> stats[j].nr != nr
      {
        if stats[k].nr == nr {
          return k;
        }
      }
      i := -1;
      if |stats| < MAX_SYSCALLS {
        TableGrows(stats, log, nr);
        stats := stats + [SysStats(nr, 0, 0, 0)];
        i := |stats| - 1;
      }
    }

    /** The counters and the table for one more record. */
    method CountRecord(r: Record)
      requires Totals(log, counters) && TableOk(stats, log)
      modifies this`counters, this`stats
      ensures Totals(log + [r], counters) && TableOk(stats, log + [r])
    {
      hide KindOf, Totals, TableOk;
      var kind := KindOf(r.action);
      TotalsStep(log, r, counters);
      counters := Bumped(counters, kind);
      if kind in PER_CALL {
        var i := GetStats(r.nr);
        ghost var t := stats;
        if i >= 0 {
          stats := stats[i := BumpedRow(stats[i], kind)];
        }
        TableNext(t, log, r, i, stats);
      } else {
        TableSame(stats, log, r);
      }
    }

    method UpdateStats(r: Record)
      requires Valid()
      modifies this, history
      ensures Valid() && log == old(log) + [r]
    {
      hide InRing, Totals, TableOk;
      ghost var before, ring := log, history[..];
      CountRecord(r);
      history[idx] := r;
      RingStep(ring, before, r);
      assert history[..] == ring[idx := r];
      idx := (idx + 1) % MAX_HISTORY;
      if count < MAX_HISTORY {
        count := count + 1;
      }
      log := log + [r];
      CountUp(|before|, MAX_HISTORY);
    }

    /** The k-th most recent record, as the screen reads it. */
    method Recent(k: nat) returns (r: Record)
      requires Valid() && k < count
      ensures r == log[|log| - 1 - k]
    {
      hide Totals, TableOk;
      r := history[(idx + MAX_HISTORY - 1 - k) % MAX_HISTORY];
    }

    /** The main loop: reads the stream into the line buffer until it ends. */
    method Run(stream: string)
      requires Valid()
      modifies this, history
      ensures Valid() && log == old(log) + Records(Chunks(stream))
    {
      hide ParseEvent, InRing, Totals, TableOk;
      var evt := new TuiEvent();
      var rest := stream;
      ghost var done: seq<string> := [];
      assert log == old(log) + Records(done) && done + Chunks(rest) == Chunks(stream);
      while rest != []
        invariant Valid() && fresh(evt)
        invariant done + Chunks(rest) == Chunks(stream)
        invariant log == old(log) + Records(done)
        decreases |rest|
      {
        var k := LineEnd(rest, LINE_SIZE - 1);
        var line := rest[..k];
        assert (done + [line])[..|done|] == done;
        assert done + ([line] + Chunks(rest[k..])) == done + [line] + Chunks(rest[k..]);
        var p := SkipIndent(line);
        if p != [] && p[0] == '{' {
          var ok := evt.Parse(p);
          if ok {
            UpdateStats(evt.Value());
          }
        }
        done := done + [line];
        rest := rest[k..];
      }
      assert done + [] == done;
    }
  }

  // --------------------------------------------------------------------- end to end

  datatype Traced = Traced(event: AuditEvent, clock: Clock)

  predicate TraceOk(ts: seq<Traced>) {
    forall i :: 0 <= i < |ts| ==> ClockOk(ts[i].clock)
  }

  /** What the loader writes for one event: its line, if it fits. */
  function LineOf(t: Traced): string
    requires t.clock.ms < 1000
  {
    match Print(t.event, t.clock)
    case None => ""
    case Some(text) => text + "\n"
  }

  /** The stream of a trace. */
  function Stream(ts: seq<Traced>): string
    requires TraceOk(ts)
  {
    if ts == [] then "" else LineOf(ts[0]) + Stream(ts[1..])
  }

  function LinesOf(ts: seq<Traced>): seq<string>
    requires TraceOk(ts)
  {
    seq(|ts|, i requires 0 <= i < |ts| => LineOf(ts[i]))
  }

  function RecordsOf(ts: seq<Traced>): (rs: seq<Record>)
    requires TraceOk(ts)
    ensures |rs| == |ts|
  {
    seq(|ts|, i requires 0 <= i < |ts| => RecordOf(ts[i].event, ts[i].clock))
  }

  lemma {:induction false} LineEndIs(text: string, rest: string, n: nat)
    requires OneLine(text) && |text| < n
    ensures LineEnd(text + "\n" + rest, n) == |text| + 1
  {
    var s := text + "\n" + rest;
    if text != [] {
      assert s[0] == text[0] && s[1..] == text[1..] + "\n" + rest;
      LineEndIs(text[1..], rest, n - 1);
    }
  }

  /** One read takes one printed line. */
  lemma LineTaken(t: Traced, rest: string)
    requires ClockOk(t.clock)
    ensures LineOf(t) != [] && Chunks(LineOf(t) + rest) == [LineOf(t)] + Chunks(rest)
  {
    hide Print, LineEnd;
    PrintedOneLine(t.event, t.clock);
    var text := Print(t.event, t.clock).value;
    LineEndIs(text, rest, LINE_SIZE - 1);
    var s := LineOf(t) + rest;
    assert s == text + "\n" + rest;
    assert s[..|text| + 1] == LineOf(t) && s[|text| + 1..] == rest;
  }

  /** The reads of the stream are the printed lines, one by one. */
  lemma {:induction false} ChunksAreLines(ts: seq<Traced>)
    requires TraceOk(ts)
    ensures Chunks(Stream(ts)) == LinesOf(ts)
  {
    hide LineOf, Chunks;
    if ts == [] {
      assert Stream(ts) == "" && LinesOf(ts) == [];
      NoChunks();
    } else {
      LineTaken(ts[0], Stream(ts[1..]));
      ChunksAreLines(ts[1..]);
      assert LinesOf(ts) == [LineOf(ts[0])] + LinesOf(ts[1..]);
    }
  }

  lemma NoChunks()
    ensures Chunks("") == []
  {
  }

  lemma HeardPrinted(t: Traced)
    requires ClockOk(t.clock)
    ensures Heard(LineOf(t)) == Some(RecordOf(t.event, t.clock))
  {
    hide Fields, Members, ParseEvent, RecordOf;
    AlwaysPrinted(t.event, t.clock);
    RoundTrip(t.event, t.clock);
  }

  lemma {:induction false} RecordsOfLines(ts: seq<Traced>)
    requires TraceOk(ts)
    ensures Records(LinesOf(ts)) == RecordsOf(ts)
    decreases |ts|
  {
    hide LineOf, Heard, RecordOf;
    if ts != [] {
      var n := |ts| - 1;
      HeardPrinted(ts[n]);
      RecordsOfLines(ts[..n]);
      assert LinesOf(ts)[..n] == LinesOf(ts[..n]);
      assert RecordsOf(ts) == RecordsOf(ts[..n]) + [RecordOf(ts[n].event, ts[n].clock)];
    }
  }

  /** The dashboard's log of a trace, from the bytes of the stream, is the trace,
      record by record.
    */
  lemma LogIsTrace(ts: seq<Traced>)
    requires TraceOk(ts)
    ensures Records(Chunks(Stream(ts))) == RecordsOf(ts)
  {
    hide Chunks, Stream, LinesOf, RecordsOf, Records;
    ChunksAreLines(ts);
    RecordsOfLines(ts);
  }

  /** The kind of an event code. */
  function CodeKind(action: byte): Kind {
    if action == 0 then Allow
    else if action == 1 then Block
    else if action == 2 then AllowCfi
    else if action == 3 then CfiFail
    else if action == 4 then NrMismatch
    else if action == 5 then ForkTrack
    else if action == 6 then Fexit
    else if action == 7 then DlopenExt
    else if action == 8 then Permissive
    else if action == 9 then Learn
    else if action == 10 then LibDeny
    else if action == 11 then ShadowOk
    else if action == 12 then ShadowFail
    else if action == 13 then Fallback
    else if action == 14 then KobjDeny
    else OtherKind
  }

  lemma LowNameKind(action: byte)
    requires action < 4
    ensures KindOf(ActionName(action)) == CodeKind(action)
  {
  }

  lemma SecondNameKind(action: byte)
    requires 4 <= action < 8
    ensures KindOf(ActionName(action)) == CodeKind(action)
  {
  }

  lemma ThirdNameKind(action: byte)
    requires 8 <= action < 12
    ensures KindOf(ActionName(action)) == CodeKind(action)
  {
  }

  lemma FourthNameKind(action: byte)
    requires 12 <= action < 14
    ensures KindOf(ActionName(action)) == CodeKind(action)
  {
  }

  lemma HighNameKind(action: byte)
    requires 14 <= action
    ensures KindOf(ActionName(action)) == CodeKind(action)
  {
    if action == 14 {
      assert |ActionName(action)| == 9;
    } else {
      assert |ActionName(action)| == 7;
    }
  }

  /** The dashboard tells the codes apart by the names the loader prints. */
  lemma NameKind(action: byte)
    ensures KindOf(ActionName(action)) == CodeKind(action)
  {
    hide KindOf, ActionName, CodeKind;
    if action < 4 {
      LowNameKind(action);
    } else if action < 8 {
      SecondNameKind(action);
    } else if action < 12 {
      ThirdNameKind(action);
    } else if action < 14 {
      FourthNameKind(action);
    } else {
      HighNameKind(action);
    }
  }

  /** How many events of a trace have a code of one of the kinds. */
  function EventCount(ts: seq<Traced>, kinds: set<Kind>): nat {
    if ts == [] then 0
    else EventCount(ts[..|ts| - 1], kinds) + if CodeKind(ts[|ts| - 1].event.action) in kinds then 1 else 0
  }

  lemma {:induction false} RecordCount(ts: seq<Traced>, kinds: set<Kind>)
    requires TraceOk(ts)
    ensures Count(RecordsOf(ts), kinds) == EventCount(ts, kinds)
    decreases |ts|
  {
    hide KindOf, CodeKind, ActionName, Stamp, Hex, Signed;
    if ts != [] {
      var n := |ts| - 1;
      RecordCount(ts[..n], kinds);
      NameKind(ts[n].event.action);
      assert RecordsOf(ts)[..n] == RecordsOf(ts[..n]);
    }
  }

  /** For any of the counters: through printing, the line buffer and parsing, it
      shows how many kernel events of its kinds there were.
    */
  lemma TotalsAreEvents(ts: seq<Traced>, kinds: set<Kind>)
    requires TraceOk(ts)
    ensures Count(Records(Chunks(Stream(ts))), kinds) == EventCount(ts, kinds)
    ensures |Records(Chunks(Stream(ts)))| == |ts|
  {
    hide Chunks, Stream, Records, Count, EventCount;
    LogIsTrace(ts);
    RecordCount(ts, kinds);
  }

  /** How many events of a trace have one of the codes. */
  function CodeCount(ts: seq<Traced>, codes: set<int>): nat {
    if ts == [] then 0
    else CodeCount(ts[..|ts| - 1], codes) + if ts[|ts| - 1].event.action in codes then 1 else 0
  }

  /** The events of these kinds are those with these codes. */
  ghost predicate HaveCodes(kinds: set<Kind>, codes: set<int>) {
    forall a: byte :: CodeKind(a) in kinds <==> a in codes
  }

  lemma FirstCodes()
    ensures HaveCodes({AllowCfi}, {2}) && HaveCodes({CfiFail}, {3}) && HaveCodes({NrMismatch}, {4})
    ensures HaveCodes({ForkTrack}, {5}) && HaveCodes({Fexit}, {6}) && HaveCodes({Permissive}, {8})
  {
  }

  lemma LastCodes()
    ensures HaveCodes({Learn}, {9}) && HaveCodes({LibDeny}, {10}) && HaveCodes({ShadowOk}, {11})
    ensures HaveCodes({ShadowFail}, {12}) && HaveCodes({Fallback}, {13}) && HaveCodes({KobjDeny}, {14})
  {
  }

  lemma SumCodes()
    ensures HaveCodes(ALLOWED, {0, 2}) && HaveCodes(BLOCKED, {1, 3, 4, 8, 10, 12, 13, 14}) && HaveCodes({Block}, {1})
  {
  }

  lemma {:induction false} CodesAreKinds(ts: seq<Traced>, kinds: set<Kind>, codes: set<int>)
    requires HaveCodes(kinds, codes)
    ensures EventCount(ts, kinds) == CodeCount(ts, codes)
    decreases |ts|
  {
    hide CodeKind;
    if ts != [] {
      CodesAreKinds(ts[..|ts| - 1], kinds, codes);
    }
  }

  /** A counter over the dashboard's log is the number of events with its codes. */
  lemma CounterIs(ts: seq<Traced>, x: nat, kinds: set<Kind>, codes: set<int>)
    requires TraceOk(ts) && Shows(x, Records(Chunks(Stream(ts))), kinds)
    requires HaveCodes(kinds, codes)
    ensures x == CodeCount(ts, codes) % WORD64
  {
    hide HaveCodes, Records, Chunks, Stream, Count, EventCount, CodeCount;
    TotalsAreEvents(ts, kinds);
    CodesAreKinds(ts, kinds, codes);
  }

  /** The screen after the printed stream of a trace: each counter is the number
      of kernel events with its codes, within 64 bits.
    */
  lemma CountersAreEvents(ts: seq<Traced>, c: Counters)
    requires TraceOk(ts) && Totals(Records(Chunks(Stream(ts))), c)
    ensures c.total == |ts| % WORD64
    ensures c.allow == CodeCount(ts, {0, 2}) % WORD64
    ensures c.block == CodeCount(ts, {1, 3, 4, 8, 10, 12, 13, 14}) % WORD64
    ensures c.cfiOk == CodeCount(ts, {2}) % WORD64 && c.cfiFail == CodeCount(ts, {3}) % WORD64
    ensures c.nrMismatch == CodeCount(ts, {4}) % WORD64 && c.fork == CodeCount(ts, {5}) % WORD64
    ensures c.fexit == CodeCount(ts, {6}) % WORD64 && c.permissive == CodeCount(ts, {8}) % WORD64
    ensures c.learn == CodeCount(ts, {9}) % WORD64 && c.libDeny == CodeCount(ts, {10}) % WORD64
    ensures c.shadowOk == CodeCount(ts, {11}) % WORD64 && c.shadowFail == CodeCount(ts, {12}) % WORD64
    ensures c.fallback == CodeCount(ts, {13}) % WORD64 && c.kobjDeny == CodeCount(ts, {14}) % WORD64
  {
    hide Records, Chunks, Stream, Shows, CodeCount, HaveCodes;
    TotalsAreEvents(ts, {});
    FirstCodes();
    LastCodes();
    SumCodes();
    CounterIs(ts, c.allow, ALLOWED, {0, 2});
    CounterIs(ts, c.block, BLOCKED, {1, 3, 4, 8, 10, 12, 13, 14});
    CounterIs(ts, c.cfiOk, {AllowCfi}, {2});
    CounterIs(ts, c.cfiFail, {CfiFail}, {3});
    CounterIs(ts, c.nrMismatch, {NrMismatch}, {4});
    CounterIs(ts, c.fork, {ForkTrack}, {5});
    CounterIs(ts, c.fexit, {Fexit}, {6});
    CounterIs(ts, c.permissive, {Permissive}, {8});
    CounterIs(ts, c.learn, {Learn}, {9});
    CounterIs(ts, c.libDeny, {LibDeny}, {10});
    CounterIs(ts, c.shadowOk, {ShadowOk}, {11});
    CounterIs(ts, c.shadowFail, {ShadowFail}, {12});
    CounterIs(ts, c.fallback, {Fallback}, {13});
    CounterIs(ts, c.kobjDeny, {KobjDeny}, {14});
  }

  /** How many events of a trace have one of the codes and a system call number. */
  function CodeCountNr(ts: seq<Traced>, nr: nat, codes: set<int>): nat {
    if ts == [] then 0
    else
      var e := ts[|ts| - 1].event;
      CodeCountNr(ts[..|ts| - 1], nr, codes) + if e.action in codes && e.nr == nr then 1 else 0
  }

  lemma {:induction false} RowCount(ts: seq<Traced>, nr: nat, kinds: set<Kind>, codes: set<int>)
    requires TraceOk(ts) && HaveCodes(kinds, codes)
    ensures CountNr(RecordsOf(ts), nr, kinds) == CodeCountNr(ts, nr, codes)
    decreases |ts|
  {
    hide KindOf, CodeKind, ActionName, Stamp, Hex, Signed;
    if ts != [] {
      var n := |ts| - 1;
      RowCount(ts[..n], nr, kinds, codes);
      NameKind(ts[n].event.action);
      assert RecordsOf(ts)[..n] == RecordsOf(ts[..n]);
    }
  }

  /** A row of the system call table counts the events of its number. */
  lemma RowsAreEvents(ts: seq<Traced>, e: SysStats)
    requires TraceOk(ts) && RowOk(e, Records(Chunks(Stream(ts))))
    ensures e.allow == CodeCountNr(ts, e.nr, {0, 2}) % WORD64
    ensures e.block == CodeCountNr(ts, e.nr, {1}) % WORD64 && e.fexit == CodeCountNr(ts, e.nr, {6}) % WORD64
  {
    hide Records, Chunks, Stream, CodeCountNr, CountNr, RecordsOf, HaveCodes;
    LogIsTrace(ts);
    FirstCodes();
    SumCodes();
    RowCount(ts, e.nr, ALLOWED, {0, 2});
    RowCount(ts, e.nr, {Block}, {1});
    RowCount(ts, e.nr, {Fexit}, {6});
  }

  // ------------------------------------------------------------------ the line buffer

  /** One read takes a prefix of the stream: up to 4095 characters, no newline but
      at its end, and less only at a newline or the stream's end.
    */
  lemma {:induction false} LineEndMeans(s: string, n: nat)
    ensures
      var k := LineEnd(s, n);
      && (forall i :: 0 <= i < k - 1 ==> s[i] != '\n')
      && (k == n || k == |s| || (k > 0 && s[k - 1] == '\n'))
  {
    if s != [] && n > 0 && s[0] != '\n' {
      LineEndMeans(s[1..], n - 1);
      var k := LineEnd(s, n);
      forall i | 0 <= i < k - 1 ensures s[i] != '\n' {
        if i > 0 { assert s[i] == s[1..][i - 1]; }
      }
    }
  }

  function Joined(parts: seq<string>): string {
    if parts == [] then "" else parts[0] + Joined(parts[1..])
  }

  /** The reads are the stream, cut: nothing is lost or moved, every read has up
      to 4095 characters, and all but the last end at a newline or are full.
    */
  lemma {:induction false} ChunksMean(s: string)
    ensures Joined(Chunks(s)) == s
    ensures forall i :: 0 <= i < |Chunks(s)| ==> IsRead(Chunks(s)[i], i == |Chunks(s)| - 1)
  {
    if s != [] {
      hide LineEnd, IsRead;
      var k := LineEnd(s, LINE_SIZE - 1);
      FirstRead(s, k);
      ChunksMean(s[k..]);
      var rest := Chunks(s[k..]);
      assert Chunks(s) == [s[..k]] + rest;
      assert Chunks(s)[1..] == rest;
    }
  }

  /** What one read returns, and the last read of a stream. */
  predicate IsRead(c: string, last: bool) {
    && 0 < |c| <= 4095 && (forall j :: 0 <= j < |c| - 1 ==> c[j] != '\n')
    && (last || |c| == 4095 || c[|c| - 1] == '\n')
  }

  lemma FirstRead(s: string, k: nat)
    requires s != [] && k == LineEnd(s, LINE_SIZE - 1)
    ensures 0 < k <= |s| && IsRead(s[..k], k == |s|)
    ensures Chunks(s[k..]) == [] <==> k == |s|
  {
    LineEndMeans(s, LINE_SIZE - 1);
  }
}

/** What the inserted calls guarantee on every run: a one-bit machine executes
    the lowered function along any path of its control-flow graph.
  */
module IntentScopes {
  import opened ControlFlow
  import opened IntentPass

  // ------------------------------------------------------- the one-bit machine

  function Step(i: Instr, active: bool): bool {
    match i
    case SetIntent(_) => true
    case ClearIntent => false
    case _ => active
  }

  /** Executing a body from its first instruction on. */
  function Exec(body: seq<Instr>, active: bool): bool {
    if body == [] then active else Step(body[|body| - 1], Exec(body[..|body| - 1], active))
  }

  predicate InRange(g: Function, p: seq<nat>) {
    forall i :: 0 <= i < |p| ==> p[i] < |g|
  }

  /** Executing every block of a path up to, not including, its last terminator. */
  function RunPath(g: Function, p: seq<nat>): bool
    requires InRange(g, p)
  {
    if p == [] then false else Exec(g[Last(p)].body, RunPath(g, Front(p)))
  }

  // ------------------------------------------------------------------- scopes

  predicate HasStart(f: Function, s: nat) {
    s < |f| && exists j :: 0 <= j < |f[s].body| && f[s].body[j].Start?
  }

  /** A function before the pass calls neither tca_set_intent nor tca_clear. */
  predicate Unlowered(f: Function) {
    forall b, k :: 0 <= b < |f| && 0 <= k < |f[b].body| ==>
      !f[b].body[k].SetIntent? && !f[b].body[k].ClearIntent?
  }

  predicate NoEnds(f: Function) {
    forall b, k :: 0 <= b < |f| && 0 <= k < |f[b].body| ==> !f[b].body[k].End?
  }

  /** The inputs of the pass for one function: its analyses, and among all
      collected intents exactly its own start calls, in reachable blocks.
    */
  ghost predicate Input(f: Function, a: Analysis, intents: seq<Intent>, fn: nat) {
    && WellFormed(f)
    && Unlowered(f)
    && AnalysisOf(f, a)
    && (forall it: Intent :: it.fn == fn ==>
        (it in intents <==> it.block < |f| && Start(it.key) in f[it.block].body))
    && (forall s: nat :: HasStart(f, s) ==> Reachable(f, s))
  }

  /** Path `p`, stopped before instruction `k` of its last block, has executed
      the start call at position `j` of block `s`.
    */
  predicate HasExecuted(p: seq<nat>, k: nat, s: nat, j: nat)
    requires |p| > 0
  {
    s in Front(p) || (s == Last(p) && j < k)
  }

  /** The start call `j` of block `s` dominates the point before instruction
      `k` of block `b`: no path reaches the point without executing the call.
    */
  ghost predicate StartDominates(f: Function, s: nat, j: nat, b: nat, k: nat) {
    && s < |f|
    && j < |f[s].body|
    && f[s].body[j].Start?
    && forall p :: PathTo(f, p, b) ==> HasExecuted(p, k, s, j)
  }

  /** The point lies in the scope of some start call. */
  ghost predicate InScope(f: Function, b: nat, k: nat) {
    exists s, j :: StartDominates(f, s, j, b, k)
  }

  /** Whether the intent is active in the lowered function before original
      instruction `k` of the last block of `p`.
    */
  function ActiveAt(f: Function, a: Analysis, intents: seq<Intent>, fn: nat, p: seq<nat>, k: nat): bool
    requires |p| > 0 && InRange(f, p)
    requires k <= |f[Last(p)].body|
  {
    var b := Last(p);
    var g := Lower(a, intents, |intents|, fn, true, f);
    Exec(g[b].body[..FrontClears(a, intents, |intents|, fn, b) + k], RunPath(g, Front(p)))
  }

  // ------------------------------------------------------------ machine facts

  lemma {:induction false} ExecConcat(x: seq<Instr>, y: seq<Instr>, active: bool)
    ensures Exec(x + y, active) == Exec(y, Exec(x, active))
  {
    if y == [] {
      assert x + y == x;
    } else {
      var y' := y[..|y| - 1];
      ExecConcat(x, y', active);
      assert (x + y)[..|x + y| - 1] == x + y';
    }
  }

  lemma {:induction false} ExecClears(n: nat, active: bool)
    ensures Exec(Clears(n), active) == (active && n == 0)
  {
    if n > 0 {
      ExecClears(n - 1, active);
      assert Clears(n)[..n - 1] == Clears(n - 1);
    }
  }

  /** Some start call stands among the first `k` instructions. */
  predicate StartBefore(body: seq<Instr>, k: nat)
    requires k <= |body|
  {
    exists j :: 0 <= j < k && body[j].Start?
  }

  /** A lowered body can only activate the intent by a start call, and without
      end calls it never deactivates it.
    */
  lemma {:induction false} ExecLowered(f: Function, a: Analysis, intents: seq<Intent>, fn: nat, b: nat, k: nat,
                                       active: bool)
    requires Input(f, a, intents, fn) && b < |f| && k <= |f[b].body|
    ensures
      var mid := LowerBody(intents, |intents|, fn, b, true, f[b].body);
      && (Exec(mid[..k], active) ==> active || StartBefore(f[b].body, k))
      && (NoEnds(f) ==> (Exec(mid[..k], active) <==> active || StartBefore(f[b].body, k)))
  {
    var body := f[b].body;
    var mid := LowerBody(intents, |intents|, fn, b, true, body);
    if k > 0 {
      ExecLowered(f, a, intents, fn, b, k - 1, active);
      assert mid[..k][..k - 1] == mid[..k - 1];
      assert StartBefore(body, k) <==> StartBefore(body, k - 1) || body[k - 1].Start?;
      var i := body[k - 1];
      if i.Start? {
        assert Intent(fn, b, i.key) in intents;
        assert intents[..|intents|] == intents;
        assert mid[k - 1].SetIntent?;
      }
    }
  }

  // ------------------------------------------------------ where clears are put

  predicate In(sets: seq<set<nat>>, s: nat, b: nat) {
    s < |sets| && b in sets[s]
  }

  lemma {:induction false} FrontClearsCount(a: Analysis, intents: seq<Intent>, n: nat, fn: nat, b: nat)
    requires n <= |intents|
    ensures FrontClears(a, intents, n, fn, b) > 0 <==>
      exists i :: 0 <= i < n && intents[i].fn == fn && In(a.frontier, intents[i].block, b)
  {
    if n > 0 { FrontClearsCount(a, intents, n - 1, fn, b); }
  }

  lemma {:induction false} BackClearsCount(a: Analysis, intents: seq<Intent>, n: nat, fn: nat, b: nat, t: Terminator)
    requires n <= |intents|
    ensures BackClears(a, intents, n, fn, b, t) > 0 <==>
      && IsExit(t)
      && exists i :: 0 <= i < n && intents[i].fn == fn && In(a.dominated, intents[i].block, b)
  {
    if n > 0 { BackClearsCount(a, intents, n - 1, fn, b, t); }
  }

  lemma StartIntent(f: Function, a: Analysis, intents: seq<Intent>, fn: nat, s: nat) returns (i: nat)
    requires Input(f, a, intents, fn) && HasStart(f, s)
    ensures i < |intents| && intents[i].fn == fn && intents[i].block == s
  {
    var j :| 0 <= j < |f[s].body| && f[s].body[j].Start?;
    assert Start(f[s].body[j].key) in f[s].body;
    var it := Intent(fn, s, f[s].body[j].key);
    assert it in intents;
    i :| 0 <= i < |intents| && intents[i] == it;
  }

  lemma IntentStart(f: Function, a: Analysis, intents: seq<Intent>, fn: nat, i: nat)
    requires Input(f, a, intents, fn) && i < |intents| && intents[i].fn == fn
    ensures HasStart(f, intents[i].block) && Reachable(f, intents[i].block)
  {
    assert intents[i] in intents;
  }

  /** A block is cleared at its front exactly when it is in the frontier of some start block. */
  lemma FrontCleared(f: Function, a: Analysis, intents: seq<Intent>, fn: nat, b: nat)
    requires Input(f, a, intents, fn) && b < |f|
    ensures FrontClears(a, intents, |intents|, fn, b) > 0 <==> exists s: nat :: HasStart(f, s) && InFrontier(f, s, b)
  {
    FrontClearsCount(a, intents, |intents|, fn, b);
    if FrontClears(a, intents, |intents|, fn, b) > 0 {
      var i :| 0 <= i < |intents| && intents[i].fn == fn && In(a.frontier, intents[i].block, b);
      IntentStart(f, a, intents, fn, i);
      assert InFrontier(f, intents[i].block, b);
    }
    if s: nat :| HasStart(f, s) && InFrontier(f, s, b) {
      var i := StartIntent(f, a, intents, fn, s);
      assert b in a.frontier[intents[i].block];
    }
  }

  /** A reachable block is cleared before its terminator exactly when it returns
      or resumes and some start block dominates it.
    */
  lemma BackCleared(f: Function, a: Analysis, intents: seq<Intent>, fn: nat, b: nat)
    requires Input(f, a, intents, fn) && b < |f| && Reachable(f, b)
    ensures BackClears(a, intents, |intents|, fn, b, f[b].term) > 0 <==>
      (f[b].term.Return? || f[b].term.Resume?) && exists s: nat :: HasStart(f, s) && Dominates(f, s, b)
  {
    BackClearsCount(a, intents, |intents|, fn, b, f[b].term);
    if BackClears(a, intents, |intents|, fn, b, f[b].term) > 0 {
      var i :| 0 <= i < |intents| && intents[i].fn == fn && In(a.dominated, intents[i].block, b);
      IntentStart(f, a, intents, fn, i);
      assert Dominates(f, intents[i].block, b);
    }
    if s: nat :| HasStart(f, s) && Dominates(f, s, b) {
      var i := StartIntent(f, a, intents, fn, s);
      assert b in a.dominated[intents[i].block];
    }
  }

  // ----------------------------------------------------- entering a block

  ghost predicate DominatedByStart(f: Function, b: nat) {
    exists s: nat :: HasStart(f, s) && Dominates(f, s, b)
  }

  ghost predicate StrictlyDominatedByStart(f: Function, b: nat) {
    exists s: nat :: HasStart(f, s) && StrictlyDominates(f, s, b)
  }

  /** No start block's frontier reaches into the scope of another start block. */
  ghost predicate ScopesSeparate(f: Function) {
    forall s: nat, t: nat, b: nat ::
      HasStart(f, s) && HasStart(f, t) && b < |f| && InFrontier(f, t, b) ==> !StrictlyDominates(f, s, b)
  }

  lemma PathInRange(f: Function, p: seq<nat>)
    requires IsPath(f, p)
    ensures InRange(f, p)
  {
    forall i | 0 <= i < |p| ensures p[i] < |f| {
      if i > 0 { assert Edge(f, p[i - 1], p[i]); }
    }
  }

  /** Past the front clears of the last block, an active intent means that a
      start block strictly dominates it; the converse needs separate scopes.
    */
  lemma EntryScope(f: Function, a: Analysis, intents: seq<Intent>, fn: nat, p: seq<nat>, incoming: bool)
    requires Input(f, a, intents, fn) && IsPath(f, p) && Last(p) < |f|
    requires |p| == 1 ==> !incoming
    requires |p| > 1 && incoming ==> DominatedByStart(f, Last(Front(p)))
    ensures
      var entered := incoming && FrontClears(a, intents, |intents|, fn, Last(p)) == 0;
      && (entered ==> StrictlyDominatedByStart(f, Last(p)))
      && (ScopesSeparate(f) && StrictlyDominatedByStart(f, Last(p))
          && (|p| > 1 && DominatedByStart(f, Last(Front(p))) ==> incoming)
          ==> entered)
  {
    var b := Last(p);
    FrontCleared(f, a, intents, fn, b);
    if |p| == 1 {
      assert PathTo(f, p, b);
      assert forall s: nat :: StrictlyDominates(f, s, b) ==> s in p;
    } else {
      var q := Last(Front(p));
      FrontIsPath(f, p);
      if incoming && FrontClears(a, intents, |intents|, fn, b) == 0 {
        var s: nat :| HasStart(f, s) && Dominates(f, s, q);
        FrontierOrDominated(f, s, q, b);
        assert StrictlyDominates(f, s, b);
      }
      if s: nat :| HasStart(f, s) && StrictlyDominates(f, s, b) {
        DominatesPredecessor(f, s, q, b);
        assert DominatedByStart(f, q);
      }
    }
  }

  /** The lowered block, split at its front clears. */
  lemma ExecPrefix(f: Function, a: Analysis, intents: seq<Intent>, fn: nat, b: nat, k: nat, incoming: bool)
    requires b < |f| && k <= |f[b].body|
    ensures
      var nf := FrontClears(a, intents, |intents|, fn, b);
      var mid := LowerBody(intents, |intents|, fn, b, true, f[b].body);
      var body := LowerBlock(a, intents, |intents|, fn, b, true, f[b]).body;
      && nf + k <= |body|
      && Exec(body[..nf + k], incoming) == Exec(mid[..k], incoming && nf == 0)
  {
    var nf := FrontClears(a, intents, |intents|, fn, b);
    var mid := LowerBody(intents, |intents|, fn, b, true, f[b].body);
    var body := LowerBlock(a, intents, |intents|, fn, b, true, f[b]).body;
    assert body[..nf + k] == Clears(nf) + mid[..k];
    ExecConcat(Clears(nf), mid[..k], incoming);
    ExecClears(nf, incoming);
  }

  lemma ExecWhole(f: Function, a: Analysis, intents: seq<Intent>, fn: nat, b: nat, incoming: bool)
    requires b < |f|
    ensures
      var mid := LowerBody(intents, |intents|, fn, b, true, f[b].body);
      Exec(LowerBlock(a, intents, |intents|, fn, b, true, f[b]).body, incoming)
      == (Exec(mid, incoming && FrontClears(a, intents, |intents|, fn, b) == 0)
          && BackClears(a, intents, |intents|, fn, b, f[b].term) == 0)
  {
    var n := |f[b].body|;
    var nf, nb := FrontClears(a, intents, |intents|, fn, b), BackClears(a, intents, |intents|, fn, b, f[b].term);
    var mid := LowerBody(intents, |intents|, fn, b, true, f[b].body);
    var body := LowerBlock(a, intents, |intents|, fn, b, true, f[b]).body;
    ExecPrefix(f, a, intents, fn, b, n, incoming);
    assert body == body[..nf + n] + Clears(nb);
    assert mid[..n] == mid;
    ExecConcat(body[..nf + n], Clears(nb), incoming);
    ExecClears(nb, Exec(body[..nf + n], incoming));
  }

  /** Whether the intent is active past the front clears of the last block of `p`. */
  function Entered(f: Function, a: Analysis, intents: seq<Intent>, fn: nat, p: seq<nat>): bool
    requires |p| > 0 && InRange(f, p)
  {
    && RunPath(Lower(a, intents, |intents|, fn, true, f), Front(p))
    && FrontClears(a, intents, |intents|, fn, Last(p)) == 0
  }

  lemma EnteredScope(f: Function, a: Analysis, intents: seq<Intent>, fn: nat, p: seq<nat>)
    requires Input(f, a, intents, fn) && IsPath(f, p)
    ensures InRange(f, p)
    ensures Entered(f, a, intents, fn, p) ==> StrictlyDominatedByStart(f, Last(p))
    ensures ScopesSeparate(f) && NoEnds(f) ==>
      (Entered(f, a, intents, fn, p) <==> StrictlyDominatedByStart(f, Last(p)))
    decreases |p|, 0
  {
    PathInRange(f, p);
    if |p| > 1 {
      FrontIsPath(f, p);
      PathScope(f, a, intents, fn, Front(p));
      assert !IsExit(f[Last(Front(p))].term);
    }
    EntryScope(f, a, intents, fn, p, RunPath(Lower(a, intents, |intents|, fn, true, f), Front(p)));
  }

  /** The invariant of every run: at the end of a block the intent is active
      only if a start block dominates that block, and with separate scopes and
      no end calls exactly then, short of the clears before an exit.
    */
  lemma {:induction false} PathScope(f: Function, a: Analysis, intents: seq<Intent>, fn: nat, p: seq<nat>)
    requires Input(f, a, intents, fn) && IsPath(f, p)
    ensures InRange(f, p)
    ensures
      var active := RunPath(Lower(a, intents, |intents|, fn, true, f), p);
      && (active ==> DominatedByStart(f, Last(p)) && !IsExit(f[Last(p)].term))
      && (ScopesSeparate(f) && NoEnds(f) && DominatedByStart(f, Last(p)) && !IsExit(f[Last(p)].term) ==> active)
    decreases |p|, 1
  {
    EnteredScope(f, a, intents, fn, p);
    var b := Last(p);
    ExecWhole(f, a, intents, fn, b, RunPath(Lower(a, intents, |intents|, fn, true, f), Front(p)));
    WholeBodyScope(f, a, intents, fn, b, Entered(f, a, intents, fn, p));
    assert PathTo(f, p, b);
    BackCleared(f, a, intents, fn, b);
    DominatedCases(f, b);
  }

  lemma DominatedCases(f: Function, b: nat)
    ensures DominatedByStart(f, b) <==> StrictlyDominatedByStart(f, b) || HasStart(f, b)
  {
    DominatesSelf(f, b);
  }

  lemma WholeBodyScope(f: Function, a: Analysis, intents: seq<Intent>, fn: nat, b: nat, active: bool)
    requires Input(f, a, intents, fn) && b < |f|
    ensures
      var mid := LowerBody(intents, |intents|, fn, b, true, f[b].body);
      && (Exec(mid, active) ==> active || HasStart(f, b))
      && (NoEnds(f) ==> (Exec(mid, active) <==> active || HasStart(f, b)))
  {
    var n := |f[b].body|;
    var mid := LowerBody(intents, |intents|, fn, b, true, f[b].body);
    ExecLowered(f, a, intents, fn, b, n, active);
    assert mid[..n] == mid;
  }

  // --------------------------------------------------------------- main results

  /** Every run of the lowered function that reaches a return or a resume does
      so with no intent active, whatever starts the function has.
    */
  lemma NoIntentSurvivesExit(f: Function, a: Analysis, intents: seq<Intent>, fn: nat, p: seq<nat>)
    requires Input(f, a, intents, fn) && IsPath(f, p)
    ensures InRange(f, p)
    ensures f[Last(p)].term.Return? || f[Last(p)].term.Resume? ==>
      !RunPath(Lower(a, intents, |intents|, fn, true, f), p)
  {
    PathScope(f, a, intents, fn, p);
  }

  /** A start call dominates a point exactly when it stands earlier in the same
      block or its block strictly dominates the point's block.
    */
  lemma StartDominatesPoint(f: Function, s: nat, j: nat, b: nat, k: nat)
    requires s < |f| && j < |f[s].body| && f[s].body[j].Start? && Reachable(f, b)
    ensures StartDominates(f, s, j, b, k) <==> StrictlyDominates(f, s, b) || (s == b && j < k)
  {
    if s == b {
      var p := FirstVisit(f, b);
      assert HasExecuted(p, k, s, j) <==> j < k;
    } else {
      forall p | PathTo(f, p, b) ensures s in p <==> s in Front(p) {
        assert p == Front(p) + [b];
      }
      assert StartDominates(f, s, j, b, k) <==> Dominates(f, s, b);
    }
  }

  /** A reachable block has a path that visits it only at the end. */
  lemma FirstVisit(f: Function, b: nat) returns (p: seq<nat>)
    requires Reachable(f, b)
    ensures PathTo(f, p, b) && b !in Front(p)
  {
    var r :| PathTo(f, r, b);
    p := FirstVisitOf(f, b, r);
  }

  lemma {:induction false} FirstVisitOf(f: Function, b: nat, r: seq<nat>) returns (p: seq<nat>)
    requires PathTo(f, r, b)
    ensures PathTo(f, p, b) && b !in Front(p)
    decreases |r|
  {
    if b in Front(r) {
      var i :| 0 <= i < |r| - 1 && r[i] == b;
      p := FirstVisitOf(f, b, r[..i + 1]);
    } else {
      p := r;
    }
  }

  lemma InScopeIff(f: Function, b: nat, k: nat)
    requires b < |f| && k <= |f[b].body| && Reachable(f, b)
    ensures InScope(f, b, k) <==> StrictlyDominatedByStart(f, b) || StartBefore(f[b].body, k)
  {
    if s: nat, j: nat :| StartDominates(f, s, j, b, k) {
      StartDominatesPoint(f, s, j, b, k);
      assert HasStart(f, s);
    }
    if s: nat :| HasStart(f, s) && StrictlyDominates(f, s, b) {
      var j :| 0 <= j < |f[s].body| && f[s].body[j].Start?;
      StartDominatesPoint(f, s, j, b, k);
    }
    if StartBefore(f[b].body, k) {
      var j :| 0 <= j < k && f[b].body[j].Start?;
      StartDominatesPoint(f, b, j, b, k);
    }
  }

  lemma ActiveInBody(f: Function, a: Analysis, intents: seq<Intent>, fn: nat, p: seq<nat>, k: nat)
    requires Input(f, a, intents, fn) && |p| > 0 && InRange(f, p)
    requires k <= |f[Last(p)].body|
    ensures ActiveAt(f, a, intents, fn, p, k) ==> Entered(f, a, intents, fn, p) || StartBefore(f[Last(p)].body, k)
    ensures NoEnds(f) ==>
      (ActiveAt(f, a, intents, fn, p, k) <==> Entered(f, a, intents, fn, p) || StartBefore(f[Last(p)].body, k))
  {
    var b := Last(p);
    ExecPrefix(f, a, intents, fn, b, k, RunPath(Lower(a, intents, |intents|, fn, true, f), Front(p)));
    ExecLowered(f, a, intents, fn, b, k, Entered(f, a, intents, fn, p));
  }

  lemma PointScope(f: Function, a: Analysis, intents: seq<Intent>, fn: nat, p: seq<nat>, k: nat)
    requires Input(f, a, intents, fn) && IsPath(f, p)
    requires Last(p) < |f| && k <= |f[Last(p)].body|
    ensures InRange(f, p)
    ensures ActiveAt(f, a, intents, fn, p, k) ==> InScope(f, Last(p), k)
    ensures ScopesSeparate(f) && NoEnds(f) ==> (ActiveAt(f, a, intents, fn, p, k) <==> InScope(f, Last(p), k))
  {
    EnteredScope(f, a, intents, fn, p);
    var b := Last(p);
    ActiveInBody(f, a, intents, fn, p, k);
    assert PathTo(f, p, b);
    InScopeIff(f, b, k);
  }

  /** Authority never leaks: on every run, any number of starts and ends, an
      intent is active at a point only if some start call dominates the point.
    */
  lemma ActiveOnlyInScope(f: Function, a: Analysis, intents: seq<Intent>, fn: nat, p: seq<nat>, k: nat)
    requires Input(f, a, intents, fn) && IsPath(f, p)
    requires Last(p) < |f| && k <= |f[Last(p)].body|
    ensures InRange(f, p)
    ensures ActiveAt(f, a, intents, fn, p, k) ==> InScope(f, Last(p), k)
  {
    PointScope(f, a, intents, fn, p, k);
  }

  ghost predicate PointExact(f: Function, a: Analysis, intents: seq<Intent>, fn: nat, p: seq<nat>, k: nat) {
    IsPath(f, p) && InRange(f, p) && k <= |f[Last(p)].body| ==>
      (ActiveAt(f, a, intents, fn, p, k) <==> InScope(f, Last(p), k))
  }

  /** Activity coincides with scope at every point of every run. */
  ghost predicate ScopesExact(f: Function, a: Analysis, intents: seq<Intent>, fn: nat) {
    forall p, k: nat :: PointExact(f, a, intents, fn, p, k)
  }

  /** Without explicit end calls the intent is active exactly in the scopes of
      the start calls if and only if no start block's dominance frontier lies
      inside another start block's scope.
    */
  lemma ScopesExactIff(f: Function, a: Analysis, intents: seq<Intent>, fn: nat)
    requires Input(f, a, intents, fn) && NoEnds(f)
    ensures ScopesExact(f, a, intents, fn) <==> ScopesSeparate(f)
  {
    if ScopesSeparate(f) {
      forall p, k: nat ensures PointExact(f, a, intents, fn, p, k) {
        if IsPath(f, p) && InRange(f, p) && k <= |f[Last(p)].body| {
          PointScope(f, a, intents, fn, p, k);
        }
      }
    } else {
      var s: nat, t: nat, b: nat :|
        HasStart(f, s) && HasStart(f, t) && b < |f| && InFrontier(f, t, b) && StrictlyDominates(f, s, b);
      ClosedEarly(f, a, intents, fn, s, t, b);
    }
  }

  lemma ClearedOnEntry(f: Function, a: Analysis, intents: seq<Intent>, fn: nat, p: seq<nat>)
    requires |p| > 0 && InRange(f, p)
    requires FrontClears(a, intents, |intents|, fn, Last(p)) > 0
    ensures !ActiveAt(f, a, intents, fn, p, 0)
  {
    ExecPrefix(f, a, intents, fn, Last(p), 0, RunPath(Lower(a, intents, |intents|, fn, true, f), Front(p)));
  }

  /** A frontier block of one start inside the scope of another is entered with
      the intent cleared.
    */
  lemma ClosedEarly(f: Function, a: Analysis, intents: seq<Intent>, fn: nat, s: nat, t: nat, b: nat)
    requires Input(f, a, intents, fn)
    requires HasStart(f, s) && HasStart(f, t) && b < |f| && InFrontier(f, t, b) && StrictlyDominates(f, s, b)
    ensures !ScopesExact(f, a, intents, fn)
  {
    var q: nat :| Reachable(f, q) && Edge(f, q, b) && Dominates(f, t, q);
    var r :| PathTo(f, r, q);
    var p := r + [b];
    ExtendPath(f, r, b);
    PathInRange(f, p);
    assert PathTo(f, p, b);
    InScopeIff(f, b, 0);
    FrontCleared(f, a, intents, fn, b);
    ClearedOnEntry(f, a, intents, fn, p);
    assert !PointExact(f, a, intents, fn, p, 0);
  }

  /** One start block, no end calls: before any terminator clear, the intent is
      active at a point on every path to it exactly when a start dominates it.
    */
  lemma SingleStartExact(f: Function, a: Analysis, intents: seq<Intent>, fn: nat, s: nat, p: seq<nat>, k: nat)
    requires Input(f, a, intents, fn) && NoEnds(f) && IsPath(f, p)
    requires forall t: nat :: HasStart(f, t) ==> t == s
    requires Last(p) < |f| && k <= |f[Last(p)].body|
    ensures InRange(f, p)
    ensures ActiveAt(f, a, intents, fn, p, k) <==> InScope(f, Last(p), k)
  {
    PointScope(f, a, intents, fn, p, k);
  }

  // ----------------------------------------------------------- a nested conditional intent

  /** Blocks 0 (start) -> 1 (start), 2; 1 -> 2; 2 returns. */
  function Nested(): Function {
    [Block([Start(0)], Branch([1, 2])), Block([Start(0)], Branch([2])), Block([Other(0)], Return)]
  }

  const NESTED_ANALYSIS := Analysis([{0, 1, 2}, {1}, {2}], [{}, {2}, {}])

  const NESTED_INTENTS := [Intent(0, 0, 0), Intent(0, 1, 0)]

  lemma NestedPaths()
    ensures PathTo(Nested(), [0], 0) && PathTo(Nested(), [0, 1], 1) && PathTo(Nested(), [0, 2], 2)
    ensures forall b: nat :: b < 3 ==> Reachable(Nested(), b)
    ensures forall a: nat, b: nat :: Edge(Nested(), a, b) <==> a < b < 3
  {
    assert forall a: nat, b: nat :: Edge(Nested(), a, b) <==> a < b < 3;
  }

  /** The entry dominates every block, and the others only themselves. */
  lemma NestedDominance(s: nat, b: nat)
    requires s < 3 && b < 3
    ensures Dominates(Nested(), s, b) <==> s == 0 || s == b
  {
    NestedPaths();
    hide Nested, Edge;
    if s == 0 {
      assert forall p :: PathTo(Nested(), p, b) ==> p[0] in p;
    } else if s == b {
      DominatesSelf(Nested(), b);
    } else {
      var p := if b == 0 then [0] else [0, b];
      assert PathTo(Nested(), p, b) && s !in p;
    }
  }

  lemma NestedFrontier(s: nat, b: nat)
    requires s < 3 && b < 3
    ensures InFrontier(Nested(), s, b) <==> s == 1 && b == 2
  {
    NestedPaths();
    hide Nested, Edge, Dominates, Reachable;
    NestedDominance(s, b);
    forall q: nat | q < 3 ensures Dominates(Nested(), s, q) <==> s == 0 || s == q {
      NestedDominance(s, q);
    }
    if s == 1 && b == 2 {
      assert Edge(Nested(), 1, 2);
    }
  }

  lemma NestedInput()
    ensures Input(Nested(), NESTED_ANALYSIS, NESTED_INTENTS, 0)
  {
    hide Dominates, InFrontier, Reachable;
    NestedPaths();
    forall s: nat, b: nat | s < 3
      ensures b in NESTED_ANALYSIS.dominated[s] <==> b < 3 && Dominates(Nested(), s, b)
      ensures b in NESTED_ANALYSIS.frontier[s] <==> b < 3 && InFrontier(Nested(), s, b)
    {
      if b < 3 {
        NestedDominance(s, b);
        NestedFrontier(s, b);
      }
    }
    assert AnalysisOf(Nested(), NESTED_ANALYSIS);
  }

  /** A nested conditional intent closes the outer scope at the join. */
  lemma NestedIntentNotSeparate()
    ensures Input(Nested(), NESTED_ANALYSIS, NESTED_INTENTS, 0) && NoEnds(Nested())
    ensures !ScopesSeparate(Nested()) && !ScopesExact(Nested(), NESTED_ANALYSIS, NESTED_INTENTS, 0)
  {
    hide Dominates, InFrontier, Reachable, Input, ScopesExact;
    NestedInput();
    NestedDominance(0, 2);
    NestedFrontier(1, 2);
    assert Nested()[0].body[0].Start? && Nested()[1].body[0].Start?;
    assert HasStart(Nested(), 0) && HasStart(Nested(), 1);
    ScopesExactIff(Nested(), NESTED_ANALYSIS, NESTED_INTENTS, 0);
  }
}

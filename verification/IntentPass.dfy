/** The SentinelPass module pass: where the calls that open and close an intent
    are inserted, and what that guarantees for every run of the compiled code.
  */
module IntentPass {
  import opened ControlFlow

  // --------------------------------------------------------- the rewritten IR

  /** One collected llvm.telos.intent.start call. */
  datatype Intent = Intent(fn: nat, block: nat, key: nat)

  /** The dominator tree and dominance frontier of a function, as block sets. */
  datatype Analysis = Analysis(dominated: seq<set<nat>>, frontier: seq<set<nat>>)

  /** What the analyses must report: for every reachable block its dominator
      subtree and its dominance frontier.
    */
  ghost predicate AnalysisOf(f: Function, a: Analysis) {
    && |a.dominated| == |f| == |a.frontier|
    && forall s: nat, b: nat :: s < |f| && Reachable(f, s) ==>
        && (b in a.dominated[s] <==> b < |f| && Reachable(f, b) && Dominates(f, s, b))
        && (b in a.frontier[s] <==> b < |f| && InFrontier(f, s, b))
  }

  function Clears(n: nat): (r: seq<Instr>)
    ensures |r| == n
    ensures forall k :: 0 <= k < n ==> r[k] == ClearIntent
  {
    seq(n, _ => ClearIntent)
  }

  /** Position of the first of the leading `n` intents equal to `it`. */
  function IndexOf(intents: seq<Intent>, n: nat, it: Intent): (r: int)
    requires n <= |intents|
    ensures -1 <= r < n
    ensures r >= 0 ==> intents[r] == it && it !in intents[..r]
    ensures r < 0 ==> it !in intents[..n]
  {
    if n == 0 then -1
    else
      var r := IndexOf(intents, n - 1, it);
      if r >= 0 then r
      else if intents[n - 1] == it then n - 1
      else assert intents[..n] == intents[..n - 1] + [intents[n - 1]]; -1
  }

  /** How many of the leading `n` intents put a clear at the front of the block. */
  function FrontClears(a: Analysis, intents: seq<Intent>, n: nat, fn: nat, b: nat): (r: nat)
    requires n <= |intents|
  {
    if n == 0 then 0
    else
      var it := intents[n - 1];
      FrontClears(a, intents, n - 1, fn, b)
      + if it.fn == fn && it.block < |a.frontier| && b in a.frontier[it.block] then 1 else 0
  }

  /** How many of the leading `n` intents put a clear before the block's terminator. */
  function BackClears(a: Analysis, intents: seq<Intent>, n: nat, fn: nat, b: nat, t: Terminator): (r: nat)
    requires n <= |intents|
  {
    if n == 0 then 0
    else
      var it := intents[n - 1];
      BackClears(a, intents, n - 1, fn, b, t)
      + if it.fn == fn && it.block < |a.dominated| && b in a.dominated[it.block] && IsExit(t) then 1 else 0
  }

  /** An original instruction after the leading `n` intents are lowered, and
      after the explicit end calls are if `ends` is set.
    */
  function LowerInstr(intents: seq<Intent>, n: nat, fn: nat, b: nat, ends: bool, i: Instr): Instr
    requires n <= |intents|
  {
    match i
    case Start(key) =>
      var r := IndexOf(intents, n, Intent(fn, b, key));
      if r >= 0 then SetIntent(r) else i
    case End => if ends then ClearIntent else End
    case _ => i
  }

  function LowerBody(intents: seq<Intent>, n: nat, fn: nat, b: nat, ends: bool, body: seq<Instr>): (r: seq<Instr>)
    requires n <= |intents|
    ensures |r| == |body|
    ensures forall k :: 0 <= k < |body| ==> r[k] == LowerInstr(intents, n, fn, b, ends, body[k])
  {
    seq(|body|, k requires 0 <= k < |body| => LowerInstr(intents, n, fn, b, ends, body[k]))
  }

  /** A block once the leading `n` intents have been injected. */
  function LowerBlock(a: Analysis, intents: seq<Intent>, n: nat, fn: nat, b: nat, ends: bool, blk: Block): Block
    requires n <= |intents|
  {
    Block(Clears(FrontClears(a, intents, n, fn, b))
          + LowerBody(intents, n, fn, b, ends, blk.body)
          + Clears(BackClears(a, intents, n, fn, b, blk.term)),
          blk.term)
  }

  function Lower(a: Analysis, intents: seq<Intent>, n: nat, fn: nat, ends: bool, f: Function): (g: Function)
    requires n <= |intents|
    ensures |g| == |f|
    ensures forall b :: 0 <= b < |f| ==> g[b] == LowerBlock(a, intents, n, fn, b, ends, f[b])
  {
    seq(|f|, b requires 0 <= b < |f| => LowerBlock(a, intents, n, fn, b, ends, f[b]))
  }

  // -------------------------------------------------------------- the pass

  /** `it` is a start call of the module. */
  predicate IsStartOf(fs: seq<Function>, it: Intent) {
    && it.fn < |fs|
    && it.block < |fs[it.fn]|
    && Start(it.key) in fs[it.fn][it.block].body
  }

  /** The start calls among the first `k` instructions of a block, in order. */
  function BlockStarts(fn: nat, b: nat, body: seq<Instr>, k: nat): seq<Intent>
    requires k <= |body|
  {
    if k == 0 then []
    else BlockStarts(fn, b, body, k - 1) + if body[k - 1].Start? then [Intent(fn, b, body[k - 1].key)] else []
  }

  function FunctionStarts(fn: nat, f: Function, n: nat): seq<Intent>
    requires n <= |f|
  {
    if n == 0 then []
    else FunctionStarts(fn, f, n - 1) + BlockStarts(fn, n - 1, f[n - 1].body, |f[n - 1].body|)
  }

  function ModuleStarts(fs: seq<Function>, n: nat): seq<Intent>
    requires n <= |fs|
  {
    if n == 0 then [] else ModuleStarts(fs, n - 1) + FunctionStarts(n - 1, fs[n - 1], |fs[n - 1]|)
  }

  lemma {:induction false} BlockStartsAre(fn: nat, b: nat, body: seq<Instr>, k: nat)
    requires k <= |body|
    ensures forall it :: it in BlockStarts(fn, b, body, k) <==>
      it.fn == fn && it.block == b && Start(it.key) in body[..k]
  {
    if k > 0 {
      BlockStartsAre(fn, b, body, k - 1);
      assert body[..k] == body[..k - 1] + [body[k - 1]];
    }
  }

  lemma {:induction false} FunctionStartsAre(fn: nat, f: Function, n: nat)
    requires n <= |f|
    ensures forall it :: it in FunctionStarts(fn, f, n) <==>
      it.fn == fn && it.block < n && Start(it.key) in f[it.block].body
  {
    if n > 0 {
      FunctionStartsAre(fn, f, n - 1);
      BlockStartsAre(fn, n - 1, f[n - 1].body, |f[n - 1].body|);
      assert f[n - 1].body[..|f[n - 1].body|] == f[n - 1].body;
    }
  }

  lemma {:induction false} ModuleStartsAre(fs: seq<Function>, n: nat)
    requires n <= |fs|
    ensures forall it :: it in ModuleStarts(fs, n) <==> it.fn < n && IsStartOf(fs, it)
  {
    if n > 0 {
      ModuleStartsAre(fs, n - 1);
      FunctionStartsAre(n - 1, fs[n - 1], |fs[n - 1]|);
    }
  }

  /** A point at which the pass inserts a clear: before a block's first
      instruction, or before its terminator.
    */
  datatype ExitPoint = FrontOf(block: nat) | TermOf(block: nat)

  /** Inserting one clear at each of the given points. */
  function InsertAt(points: set<ExitPoint>, b: nat, blk: Block): Block {
    Block((if FrontOf(b) in points then [ClearIntent] else [])
          + blk.body
          + (if TermOf(b) in points then [ClearIntent] else []),
          blk.term)
  }

  /** Replacing a start call by the set call inserted just before it. */
  function Replace(body: seq<Instr>, key: nat, index: nat): (r: seq<Instr>)
    ensures |r| == |body|
    ensures forall k :: 0 <= k < |body| ==>
      r[k] == if body[k] == Start(key) then SetIntent(index) else body[k]
  {
    seq(|body|, k requires 0 <= k < |body| => if body[k] == Start(key) then SetIntent(index) else body[k])
  }

  /** A block after the injection for one intent. */
  function InjectedBlock(a: Analysis, it: Intent, index: nat, b: nat, blk: Block): Block
    requires it.block < |a.frontier| == |a.dominated|
  {
    Block((if b in a.frontier[it.block] then [ClearIntent] else [])
          + (if b == it.block then Replace(blk.body, it.key, index) else blk.body)
          + (if b in a.dominated[it.block] && IsExit(blk.term) then [ClearIntent] else []),
          blk.term)
  }

  function Injected(a: Analysis, it: Intent, index: nat, f: Function): (g: Function)
    requires it.block < |a.frontier| == |a.dominated|
    ensures |g| == |f|
    ensures forall b :: 0 <= b < |f| ==> g[b] == InjectedBlock(a, it, index, b, f[b])
  {
    seq(|f|, b requires 0 <= b < |f| => InjectedBlock(a, it, index, b, f[b]))
  }

  /** The analysis results for an intent's block exist and name blocks. */
  ghost predicate Fits(fs: seq<Function>, analyses: seq<Analysis>, it: Intent) {
    && it.fn < |fs| == |analyses|
    && var f, a := fs[it.fn], analyses[it.fn];
    && it.block < |f| == |a.frontier| == |a.dominated|
    && (forall b :: b in a.frontier[it.block] ==> b < |f|)
    && (forall b :: b in a.dominated[it.block] ==> b < |f|)
  }

  lemma AnalysisFits(fs: seq<Function>, analyses: seq<Analysis>, it: Intent)
    requires it.fn < |fs| == |analyses| && it.block < |fs[it.fn]|
    requires AnalysisOf(fs[it.fn], analyses[it.fn]) && Reachable(fs[it.fn], it.block)
    ensures Fits(fs, analyses, it)
  {
    var f, a, s := fs[it.fn], analyses[it.fn], it.block;
    assert forall b: nat :: b in a.frontier[s] ==> InFrontier(f, s, b);
    assert forall b: nat :: b in a.dominated[s] ==> Reachable(f, b);
  }

  class Module {
    var functions: seq<Function>

    constructor (fs: seq<Function>)
      ensures functions == fs
    {
      functions := fs;
    }

    /** The collection loops: one entry per start call, in layout order. */
    method CollectIntents() returns (intents: seq<Intent>)
      ensures intents == ModuleStarts(functions, |functions|)
      ensures forall it :: it in intents <==> IsStartOf(functions, it)
    {
      intents := [];
      for fn := 0 to |functions|
        invariant intents == ModuleStarts(functions, fn)
      {
        var f := functions[fn];
        for b := 0 to |f|
          invariant intents == ModuleStarts(functions, fn) + FunctionStarts(fn, f, b)
        {
          var body := f[b].body;
          for k := 0 to |body|
            invariant intents == ModuleStarts(functions, fn) + FunctionStarts(fn, f, b) + BlockStarts(fn, b, body, k)
          {
            if body[k].Start? {
              intents := intents + [Intent(fn, b, body[k].key)];
            }
          }
        }
      }
      ModuleStartsAre(functions, |functions|);
    }

    /** Injection for one intent: the set call, the exit points, the clears. */
    method InjectOne(fn: nat, a: Analysis, it: Intent, index: nat)
      requires fn < |functions| && it.fn == fn && it.block < |functions[fn]|
      requires |a.dominated| == |functions[fn]| == |a.frontier|
      requires forall b :: b in a.frontier[it.block] ==> b < |functions[fn]|
      requires forall b :: b in a.dominated[it.block] ==> b < |functions[fn]|
      modifies this
      ensures functions == old(functions)[fn := Injected(a, it, index, old(functions)[fn])]
    {
      var f := functions[fn];
      f := f[it.block := f[it.block].(body := Replace(f[it.block].body, it.key, index))];

      var exitPoints: set<ExitPoint> := {};
      var todo := a.frontier[it.block];
      while todo != {}
        invariant todo <= a.frontier[it.block]
        invariant exitPoints == set b | b in a.frontier[it.block] - todo :: FrontOf(b)
      {
        var b :| b in todo;
        exitPoints := exitPoints + {FrontOf(b)};
        todo := todo - {b};
      }
      ghost var fronts := exitPoints;
      todo := a.dominated[it.block];
      while todo != {}
        invariant todo <= a.dominated[it.block]
        invariant exitPoints == fronts
                  + set b | b in a.dominated[it.block] - todo && IsExit(f[b].term) :: TermOf(b)
      {
        var b :| b in todo;
        if IsExit(f[b].term) {
          exitPoints := exitPoints + {TermOf(b)};
        }
        todo := todo - {b};
      }

      f := InsertClears(f, exitPoints);
      assert f == Injected(a, it, index, functions[fn]);
      functions := functions[fn := f];
    }

    /** Inserting a clear call at every exit point, in whatever order the set
        is traversed.
      */
    static method InsertClears(f: Function, exitPoints: set<ExitPoint>) returns (g: Function)
      requires forall e :: e in exitPoints ==> e.block < |f|
      ensures |g| == |f|
      ensures forall b :: 0 <= b < |f| ==> g[b] == InsertAt(exitPoints, b, f[b])
    {
      g := f;
      var todo := exitPoints;
      assert forall b :: 0 <= b < |f| ==> f[b] == InsertAt({}, b, f[b]);
      while todo != {}
        invariant todo <= exitPoints && |g| == |f|
        invariant forall b :: 0 <= b < |f| ==> g[b] == InsertAt(exitPoints - todo, b, f[b])
      {
        var e :| e in todo;
        var blk := g[e.block];
        g := g[e.block := match e
                          case FrontOf(_) => blk.(body := [ClearIntent] + blk.body)
                          case TermOf(_) => blk.(body := blk.body + [ClearIntent])];
        todo := todo - {e};
      }
      assert exitPoints - {} == exitPoints;
    }

    /** The whole pass. A module without start calls is left as it is. */
    method Run(analyses: seq<Analysis>) returns (modified: bool, intents: seq<Intent>)
      requires |analyses| == |functions|
      requires forall fn :: 0 <= fn < |functions| ==>
        WellFormed(functions[fn]) && AnalysisOf(functions[fn], analyses[fn])
      requires forall it :: IsStartOf(functions, it) ==> Reachable(functions[it.fn], it.block)
      modifies this
      ensures intents == ModuleStarts(old(functions), |old(functions)|)
      ensures forall it :: it in intents <==> IsStartOf(old(functions), it)
      ensures modified <==> intents != []
      ensures !modified ==> functions == old(functions)
      ensures |functions| == |old(functions)|
      ensures modified ==> forall fn :: 0 <= fn < |functions| ==>
        functions[fn] == Lower(analyses[fn], intents, |intents|, fn, true, old(functions)[fn])
    {
      ghost var fs := functions;
      intents := CollectIntents();
      if intents == [] {
        return false, intents;
      }
      modified := true;
      forall it | it in intents ensures Fits(fs, analyses, it) {
        assert IsStartOf(fs, it);
        AnalysisFits(fs, analyses, it);
      }
      InjectAll(analyses, intents);
      RewriteEnds();
      forall fn | 0 <= fn < |fs|
        ensures functions[fn] == Lower(analyses[fn], intents, |intents|, fn, true, fs[fn])
      {
        LowerEnds(analyses[fn], intents, fn, fs[fn]);
      }
    }

    /** The injection loop over the collected intents. */
    method InjectAll(analyses: seq<Analysis>, intents: seq<Intent>)
      requires |analyses| == |functions|
      requires forall it :: it in intents ==> Fits(functions, analyses, it)
      modifies this
      ensures |functions| == |old(functions)|
      ensures forall fn :: 0 <= fn < |functions| ==>
        functions[fn] == Lower(analyses[fn], intents, |intents|, fn, false, old(functions)[fn])
    {
      ghost var fs := functions;
      forall fn | 0 <= fn < |fs|
        ensures fs[fn] == Lower(analyses[fn], intents, 0, fn, false, fs[fn])
      {
        LowerNothing(analyses[fn], intents, fn, fs[fn]);
      }
      for i := 0 to |intents|
        invariant |functions| == |fs|
        invariant forall fn :: 0 <= fn < |fs| ==>
          functions[fn] == Lower(analyses[fn], intents, i, fn, false, fs[fn])
      {
        var it := intents[i];
        assert Fits(fs, analyses, it);
        InjectOne(it.fn, analyses[it.fn], it, i);
        forall fn | 0 <= fn < |fs|
          ensures functions[fn] == Lower(analyses[fn], intents, i + 1, fn, false, fs[fn])
        {
          LowerStep(analyses[fn], intents, i, fn, fs[fn]);
        }
      }
    }

    /** Turning the explicit end calls into clear calls: in each function, a
        clear is inserted before every end call, and then the end calls found
        on the way are erased.
      */
    method RewriteEnds()
      modifies this
      ensures |functions| == |old(functions)|
      ensures forall fn :: 0 <= fn < |functions| ==> functions[fn] == EndsRewritten(old(functions)[fn])
    {
      var fs := functions;
      for fn := 0 to |functions|
        invariant |functions| == |fs|
        invariant forall m :: fn <= m < |fs| ==> functions[m] == fs[m]
        invariant forall m :: 0 <= m < fn ==> functions[m] == EndsRewritten(fs[m])
      {
        var f, toDelete := InsertBeforeEnds(functions[fn]);
        f := EraseMarked(f, toDelete);
        forall b | 0 <= b < |f| ensures f[b] == EndRewritten(fs[fn][b]) {
          KeptDoubled(fs[fn][b].body, b, toDelete);
        }
        functions := functions[fn := f];
      }
    }

    /** The search through the blocks of a function: inserts the clears, and
        marks the end calls for deletion by block and position.
      */
    static method InsertBeforeEnds(f: Function) returns (g: Function, toDelete: set<(nat, nat)>)
      ensures |g| == |f|
      ensures forall b :: 0 <= b < |f| ==> g[b] == f[b].(body := Doubled(f[b].body))
      ensures forall m :: m in toDelete <==> m.0 < |g| && m.1 < |g[m.0].body| && g[m.0].body[m.1].End?
    {
      g, toDelete := f, {};
      for b := 0 to |f|
        invariant |g| == |f| && forall c :: b <= c < |f| ==> g[c] == f[c]
        invariant forall c :: 0 <= c < b ==> g[c] == f[c].(body := Doubled(f[c].body))
        invariant forall m :: m in toDelete <==> m.0 < b && m.1 < |g[m.0].body| && g[m.0].body[m.1].End?
      {
        var body, marks := InsertInBlock(f[b].body);
        g := g[b := g[b].(body := body)];
        toDelete := toDelete + set p | p in marks :: (b, p);
      }
    }

    static method InsertInBlock(body: seq<Instr>) returns (r: seq<Instr>, marks: set<nat>)
      ensures r == Doubled(body)
      ensures forall p: nat :: p in marks <==> p < |r| && r[p].End?
    {
      hide Doubled;
      DoubledNothing();
      r, marks := body, {};
      var k := 0;
      ghost var n := 0;
      while k < |r|
        invariant n <= |body| && k <= |r|
        invariant r[..k] == Doubled(body[..n]) && r[k..] == body[n..]
        invariant forall p: nat :: p in marks <==> p < k && r[p].End?
        decreases |body| - n
      {
        DoubledNext(body, n);
        assert r[k] == body[n];
        if r[k].End? {
          ghost var before := r;
          r := r[..k] + [ClearIntent] + r[k..];
          marks := marks + {k + 1};
          assert r[..k + 2] == before[..k] + [ClearIntent, End];
          assert r[k + 2..] == body[n + 1..];
          k := k + 2;
        } else {
          assert r[..k + 1] == r[..k] + [r[k]];
          assert r[k + 1..] == body[n + 1..];
          k := k + 1;
        }
        n := n + 1;
      }
      assert r[..k] == r && body[..n] == body;
    }

    /** Erasing the marked instructions. */
    static method EraseMarked(f: Function, toDelete: set<(nat, nat)>) returns (g: Function)
      ensures |g| == |f|
      ensures forall b :: 0 <= b < |f| ==> g[b] == f[b].(body := Kept(f[b].body, b, toDelete))
    {
      g := f;
      for b := 0 to |f|
        invariant |g| == |f| && forall c :: b <= c < |f| ==> g[c] == f[c]
        invariant forall c :: 0 <= c < b ==> g[c] == f[c].(body := Kept(f[c].body, c, toDelete))
      {
        var body, kept := f[b].body, [];
        for k := 0 to |body|
          invariant kept == Kept(body[..k], b, toDelete)
        {
          assert body[..k + 1][..k] == body[..k];
          if (b, k) !in toDelete {
            kept := kept + [body[k]];
          }
        }
        assert body[..|body|] == body;
        g := g[b := g[b].(body := kept)];
      }
    }
  }

  /** A body with a clear inserted before every end call. */
  function Doubled(body: seq<Instr>): seq<Instr> {
    if body == [] then []
    else
      var last := body[|body| - 1];
      Doubled(body[..|body| - 1]) + if last.End? then [ClearIntent, End] else [last]
  }

  lemma DoubledNothing()
    ensures Doubled([]) == []
  {
  }

  lemma DoubledNext(body: seq<Instr>, n: nat)
    requires n < |body|
    ensures Doubled(body[..n + 1]) == Doubled(body[..n]) + if body[n].End? then [ClearIntent, End] else [body[n]]
  {
    assert body[..n + 1][..n] == body[..n];
  }

  /** What is left of a body of block `b` once the marked positions are erased. */
  function Kept(body: seq<Instr>, b: nat, marks: set<(nat, nat)>): seq<Instr> {
    if body == [] then []
    else
      var k := |body| - 1;
      Kept(body[..k], b, marks) + if (b, k) in marks then [] else [body[k]]
  }

  lemma {:induction false} KeptIsFiltered(body: seq<Instr>, b: nat, marks: set<(nat, nat)>)
    requires forall p :: 0 <= p < |body| ==> ((b, p) in marks <==> body[p].End?)
    ensures Kept(body, b, marks) == WithoutEnds(body)
  {
    if body != [] {
      KeptIsFiltered(body[..|body| - 1], b, marks);
    }
  }

  function WithoutEnds(body: seq<Instr>): seq<Instr> {
    if body == [] then []
    else
      var last := body[|body| - 1];
      WithoutEnds(body[..|body| - 1]) + if last.End? then [] else [last]
  }

  lemma {:induction false} WithoutEndsDoubled(body: seq<Instr>)
    ensures WithoutEnds(Doubled(body)) == EndsCleared(body)
  {
    if body != [] {
      var front, last := body[..|body| - 1], body[|body| - 1];
      WithoutEndsDoubled(front);
      var d := Doubled(front);
      if last.End? {
        assert (d + [ClearIntent, End])[..|d| + 1] == d + [ClearIntent];
        assert (d + [ClearIntent])[..|d|] == d;
      } else {
        assert (d + [last])[..|d|] == d;
      }
      assert EndsCleared(body) == EndsCleared(front) + [if last.End? then ClearIntent else last];
    }
  }

  /** Inserting before the end calls and erasing them replaces each in place. */
  lemma KeptDoubled(body: seq<Instr>, b: nat, marks: set<(nat, nat)>)
    requires
      var d := Doubled(body);
      forall p :: 0 <= p < |d| ==> ((b, p) in marks <==> d[p].End?)
    ensures Kept(Doubled(body), b, marks) == EndsCleared(body)
  {
    KeptIsFiltered(Doubled(body), b, marks);
    WithoutEndsDoubled(body);
  }

  /** A body with each end call turned into a clear where it stood. */
  function EndsCleared(body: seq<Instr>): (r: seq<Instr>)
    ensures |r| == |body|
    ensures forall k :: 0 <= k < |body| ==> r[k] == if body[k].End? then ClearIntent else body[k]
  {
    seq(|body|, k requires 0 <= k < |body| => if body[k].End? then ClearIntent else body[k])
  }

  function EndRewritten(blk: Block): Block {
    blk.(body := EndsCleared(blk.body))
  }

  function EndsRewritten(f: Function): (g: Function)
    ensures |g| == |f|
    ensures forall b :: 0 <= b < |f| ==> g[b] == EndRewritten(f[b])
  {
    seq(|f|, b requires 0 <= b < |f| => EndRewritten(f[b]))
  }

  // ------------------------------------------------ the pass meets its spec

  lemma LowerNothing(a: Analysis, intents: seq<Intent>, fn: nat, f: Function)
    ensures Lower(a, intents, 0, fn, false, f) == f
  {
    forall b | 0 <= b < |f| ensures LowerBlock(a, intents, 0, fn, b, false, f[b]) == f[b] {
      assert LowerBody(intents, 0, fn, b, false, f[b].body) == f[b].body;
    }
  }

  /** One more intent changes a lowered function exactly as InjectOne does. */
  lemma LowerStep(a: Analysis, intents: seq<Intent>, n: nat, fn: nat, f: Function)
    requires n < |intents|
    requires intents[n].fn == fn ==> intents[n].block < |a.frontier| == |a.dominated|
    ensures Lower(a, intents, n + 1, fn, false, f)
         == var was := Lower(a, intents, n, fn, false, f);
            if intents[n].fn != fn then was else Injected(a, intents[n], n, was)
  {
    forall b | 0 <= b < |f|
      ensures LowerBlock(a, intents, n + 1, fn, b, false, f[b])
           == var was := LowerBlock(a, intents, n, fn, b, false, f[b]);
              if intents[n].fn != fn then was else InjectedBlock(a, intents[n], n, b, was)
    {
      LowerBlockStep(a, intents, n, fn, b, f[b]);
    }
  }

  lemma LowerBlockStep(a: Analysis, intents: seq<Intent>, n: nat, fn: nat, b: nat, blk: Block)
    requires n < |intents|
    requires intents[n].fn == fn ==> intents[n].block < |a.frontier| == |a.dominated|
    ensures LowerBlock(a, intents, n + 1, fn, b, false, blk)
         == var was := LowerBlock(a, intents, n, fn, b, false, blk);
            if intents[n].fn != fn then was else InjectedBlock(a, intents[n], n, b, was)
  {
    var nf, nb := FrontClears(a, intents, n, fn, b), BackClears(a, intents, n, fn, b, blk.term);
    LowerBodyStep(intents, n, fn, b, blk.body);
    if intents[n].fn == fn {
      InjectWrapped(a, intents[n], n, b, nf, LowerBody(intents, n, fn, b, false, blk.body), nb, blk.term);
    }
  }

  lemma InjectWrapped(a: Analysis, it: Intent, n: nat, b: nat, nf: nat, mid: seq<Instr>, nb: nat, t: Terminator)
    requires it.block < |a.frontier| == |a.dominated|
    ensures InjectedBlock(a, it, n, b, Block(Clears(nf) + mid + Clears(nb), t))
         == Block(Clears(nf + if b in a.frontier[it.block] then 1 else 0)
                  + (if b == it.block then Replace(mid, it.key, n) else mid)
                  + Clears(nb + if b in a.dominated[it.block] && IsExit(t) then 1 else 0), t)
  {
    ReplaceMiddle(nf, mid, nb, it.key, n);
    WrapClears(nf, if b == it.block then Replace(mid, it.key, n) else mid, nb,
               b in a.frontier[it.block], b in a.dominated[it.block] && IsExit(t));
  }

  lemma LowerBodyStep(intents: seq<Intent>, n: nat, fn: nat, b: nat, body: seq<Instr>)
    requires n < |intents|
    ensures LowerBody(intents, n + 1, fn, b, false, body)
         == var mid := LowerBody(intents, n, fn, b, false, body);
            if intents[n].fn == fn && intents[n].block == b then Replace(mid, intents[n].key, n) else mid
  {
  }

  lemma ReplaceMiddle(nf: nat, mid: seq<Instr>, nb: nat, key: nat, n: nat)
    ensures Replace(Clears(nf) + mid + Clears(nb), key, n) == Clears(nf) + Replace(mid, key, n) + Clears(nb)
  {
  }

  lemma WrapClears(nf: nat, mid: seq<Instr>, nb: nat, hit: bool, out: bool)
    ensures (if hit then [ClearIntent] else []) + (Clears(nf) + mid + Clears(nb)) + (if out then [ClearIntent] else [])
         == Clears(nf + if hit then 1 else 0) + mid + Clears(nb + if out then 1 else 0)
  {
  }

  lemma LowerEnds(a: Analysis, intents: seq<Intent>, fn: nat, f: Function)
    ensures EndsRewritten(Lower(a, intents, |intents|, fn, false, f)) == Lower(a, intents, |intents|, fn, true, f)
  {
    forall b | 0 <= b < |f|
      ensures EndRewritten(LowerBlock(a, intents, |intents|, fn, b, false, f[b])).body
           == LowerBlock(a, intents, |intents|, fn, b, true, f[b]).body
    {
    }
  }
}

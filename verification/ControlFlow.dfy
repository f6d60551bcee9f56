/** Control-flow graphs of basic blocks, with dominance and dominance frontiers
    defined from paths alone.
  */
module ControlFlow {

  /** The instructions the intent pass looks at; `Other` stands for the rest.
      A `Start` or `End` is a call of the llvm.telos.intent intrinsics, a
      `SetIntent` or `ClearIntent` a call of tca_set_intent or tca_clear. The
      `key` of a start is the identity of the call instruction in its block.
    */
  datatype Instr =
    | Start(key: nat)
    | End
    | SetIntent(index: nat)
    | ClearIntent
    | Other(tag: nat)

  datatype Terminator = Branch(targets: seq<nat>) | Return | Resume | Unreachable

  datatype Block = Block(body: seq<Instr>, term: Terminator)

  /** The blocks of a function in layout order; block 0 is the entry. */
  type Function = seq<Block>

  predicate WellFormed(f: Function) {
    && |f| > 0
    && forall b, t ::
      0 <= b < |f| && f[b].term.Branch? && t in f[b].term.targets ==> t < |f|
  }

  predicate IsExit(t: Terminator) {
    t.Return? || t.Resume?
  }

  predicate Edge(f: Function, a: nat, b: nat) {
    a < |f| && b < |f| && f[a].term.Branch? && b in f[a].term.targets
  }

  ghost predicate IsPath(f: Function, p: seq<nat>) {
    && |p| > 0
    && p[0] == 0
    && 0 < |f|
    && forall i :: 0 < i < |p| ==> Edge(f, p[i - 1], p[i])
  }

  function Last(p: seq<nat>): nat
    requires |p| > 0
  {
    p[|p| - 1]
  }

  function Front(p: seq<nat>): seq<nat>
    requires |p| > 0
  {
    p[..|p| - 1]
  }

  /** `p` leads from the function's entry to block `b`. */
  ghost predicate PathTo(f: Function, p: seq<nat>, b: nat) {
    IsPath(f, p) && Last(p) == b
  }

  ghost predicate Reachable(f: Function, b: nat) {
    exists p :: PathTo(f, p, b)
  }

  /** Every path from the entry to `b` goes through `a`. */
  ghost predicate Dominates(f: Function, a: nat, b: nat) {
    forall p :: PathTo(f, p, b) ==> a in p
  }

  ghost predicate StrictlyDominates(f: Function, a: nat, b: nat) {
    a != b && Dominates(f, a, b)
  }

  /** `b` is where the dominance of `a` ends: `a` dominates a reachable
      predecessor of `b` but does not strictly dominate `b`.
    */
  ghost predicate InFrontier(f: Function, a: nat, b: nat) {
    && !StrictlyDominates(f, a, b)
    && exists q :: Reachable(f, q) && Edge(f, q, b) && Dominates(f, a, q)
  }

  // ------------------------------------------------------------- graph facts

  lemma FrontIsPath(f: Function, p: seq<nat>)
    requires IsPath(f, p) && |p| > 1
    ensures IsPath(f, Front(p)) && PathTo(f, Front(p), Last(Front(p)))
    ensures Edge(f, Last(Front(p)), Last(p))
    ensures Reachable(f, Last(Front(p)))
  {
    assert PathTo(f, Front(p), Last(Front(p)));
  }

  lemma ExtendPath(f: Function, p: seq<nat>, b: nat)
    requires IsPath(f, p) && Edge(f, Last(p), b)
    ensures PathTo(f, p + [b], b)
  {
  }

  lemma DominatesSelf(f: Function, a: nat)
    ensures Dominates(f, a, a)
  {
  }

  /** Dominance is inherited backwards along an edge that does not enter the dominator. */
  lemma DominatesPredecessor(f: Function, a: nat, q: nat, b: nat)
    requires Edge(f, q, b) && a != b && Dominates(f, a, b)
    ensures Dominates(f, a, q)
  {
    forall p | PathTo(f, p, q) ensures a in p {
      ExtendPath(f, p, b);
      assert a in p + [b];
    }
  }

  /** Crossing an edge out of a dominated block either stays strictly dominated
      or lands in the frontier.
    */
  lemma FrontierOrDominated(f: Function, a: nat, q: nat, b: nat)
    requires Reachable(f, q) && Edge(f, q, b) && Dominates(f, a, q)
    ensures StrictlyDominates(f, a, b) || InFrontier(f, a, b)
  {
  }
}

/** What several components share: optional values, and two facts about counts. */
module Common {
  import opened Bits

  datatype Option<T> = None | Some(value: T)

  /** A text occurs in another (`strstr`). */
  predicate Contains(s: string, t: string) {
    t <= s || (s != [] && Contains(s[1..], t))
  }

  /** The text stands in the other at some position. */
  ghost predicate Occurs(s: string, t: string) {
    exists i: nat :: OccursAt(s, t, i)
  }

  predicate OccursAt(s: string, t: string, i: nat) {
    i + |t| <= |s| && s[i..i + |t|] == t
  }

  lemma {:induction false} ContainsIff(s: string, t: string)
    ensures Contains(s, t) <==> Occurs(s, t)
  {
    if t <= s {
      assert OccursAt(s, t, 0);
    } else if s != [] {
      ContainsIff(s[1..], t);
      if Occurs(s[1..], t) {
        var i: nat :| OccursAt(s[1..], t, i);
        assert OccursAt(s, t, i + 1);
      }
      if Occurs(s, t) {
        var i: nat :| OccursAt(s, t, i);
        assert i > 0;
        assert OccursAt(s[1..], t, i - 1);
      }
    }
  }

  lemma SubsetCount<T>(a: set<T>, b: set<T>)
    requires a <= b
    ensures |a| <= |b|
  {
    assert |b| == |a| + |b - a| by { assert b == a + (b - a); }
  }

  function Elements<T>(s: seq<T>): set<T> {
    set x | x in s
  }

  lemma {:induction false} DistinctCount<T>(s: seq<T>)
    requires forall i, j :: 0 <= i < j < |s| ==> s[i] != s[j]
    ensures |Elements(s)| == |s|
  {
    if s != [] {
      var front := s[..|s| - 1];
      DistinctCount(front);
      assert Elements(s) == Elements(front) + {s[|s| - 1]};
    }
  }

  /** A counter that wraps counts on. */
  lemma CountUp(x: nat, m: nat)
    requires m > 1
    ensures (x % m + 1) % m == (x + 1) % m
  {
    ModShift(x % m + 1, m, x / m);
  }

  /** A 64-bit loop variable after `n` additions of a step. */
  function Stepped(first: u64, step: nat, n: nat): u64 {
    if n == 0 then first else Wrap64(Stepped(first, step, n - 1) + step)
  }

  /** Pages and one-megabyte blocks. */
  predicate IsStep(step: nat) {
    step == 0x1000 || step == 0x10_0000
  }

  lemma StepAligned(x: u64, step: nat)
    requires IsStep(step) && x % step == 0
    ensures Wrap64(x + step) % step == 0
  {
    var k := if step == 0x1000 then 0x10_0000_0000_0000 else 0x1000_0000_0000;
    var q := x / step;
    if x + step < WORD64 {
      DivModUnique(x + step, WORD64, 0, x + step);
      DivModUnique(x + step, step, q + 1, 0);
    } else {
      DivModUnique(x + step, WORD64, 1, x + step - WORD64);
      DivModUnique(x + step - WORD64, step, q + 1 - k, 0);
    }
  }

  lemma {:induction false} SteppedAligned(first: u64, step: nat, n: nat)
    requires IsStep(step) && first % step == 0
    ensures Stepped(first, step, n) % step == 0
  {
    hide Wrap64;
    if n > 0 {
      SteppedAligned(first, step, n - 1);
      StepAligned(Stepped(first, step, n - 1), step);
    }
  }

  lemma {:induction false} SteppedIs(first: u64, step: nat, n: nat)
    requires IsStep(step) && first + step * n < WORD64
    ensures Stepped(first, step, n) == first + step * n
  {
    if n > 0 {
      SteppedIs(first, step, n - 1);
    }
  }

  /** A loop that steps an aligned 64-bit variable while it is below an end
      comes to that end if and only if the end leaves room for one more step;
      otherwise the variable wraps and the loop runs forever.
    */
  lemma StepLoopEndsIff(first: u64, step: nat, end: u64)
    requires IsStep(step) && first % step == 0
    ensures (exists n: nat :: Stepped(first, step, n) >= end) <==> end + step <= WORD64
  {
    if end + step <= WORD64 {
      var n := if first < end then (end - first + step - 1) / step else 0;
      SteppedIs(first, step, n);
      assert Stepped(first, step, n) >= end;
    } else {
      forall n: nat ensures Stepped(first, step, n) < end {
        SteppedAligned(first, step, n);
      }
    }
  }
}

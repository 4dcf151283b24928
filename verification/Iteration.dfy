/** Repeating a step. */
module Iteration {
  import opened Bits

  function Iterate<S>(step: S -> S, s: S, n: nat): S
    decreases n
  {
    if n == 0 then s else Iterate(step, step(s), n - 1)
  }

  lemma {:induction false} IterateSum<S>(step: S -> S, s: S, m: nat, n: nat)
    ensures Iterate(step, s, m + n) == Iterate(step, Iterate(step, s, m), n)
    decreases m
  {
    if m > 0 {
      IterateSum(step, step(s), m - 1, n);
    }
  }

  function Block<S>(step: S -> S, k: nat): S -> S { s => Iterate(step, s, k) }

  lemma {:induction false} IterateBlocks<S>(step: S -> S, k: nat, s: S, n: nat)
    ensures Iterate(step, s, n * k) == Iterate(Block(step, k), s, n)
    decreases n
  {
    if n > 0 {
      MulStep(n - 1, k);
      IterateSum(step, s, k, (n - 1) * k);
      IterateBlocks(step, k, Iterate(step, s, k), n - 1);
    }
  }

  /** If one fine step from a ready state is one coarse step and ends in a ready state, then whole runs agree. */
  lemma {:induction false} RunsAgree<S(!new), T>(fine: S -> S, coarse: T -> T, view: S -> T, ready: S -> bool,
                                                 s: S, n: nat)
    requires ready(s)
    requires forall x :: ready(x) ==> ready(fine(x)) && view(fine(x)) == coarse(view(x))
    ensures view(Iterate(fine, s, n)) == Iterate(coarse, view(s), n)
    ensures ready(Iterate(fine, s, n))
    decreases n
  {
    if n > 0 {
      RunsAgree(fine, coarse, view, ready, fine(s), n - 1);
    }
  }

  /** The same while the coarse run meets only states in which one step agrees. */
  lemma {:induction false} RunsAgreeWhile<S(!new), T(!new)>(fine: S -> S, coarse: T -> T, view: S -> T,
                                                            ready: S -> bool, safe: T -> bool, s: S, n: nat)
    requires ready(s) && forall k :: 0 <= k < n ==> safe(Iterate(coarse, view(s), k))
    requires forall x :: ready(x) && safe(view(x)) ==> ready(fine(x)) && view(fine(x)) == coarse(view(x))
    ensures view(Iterate(fine, s, n)) == Iterate(coarse, view(s), n)
    decreases n
  {
    if n > 0 {
      assert safe(Iterate(coarse, view(s), 0));
      forall k | 0 <= k < n - 1
        ensures safe(Iterate(coarse, view(fine(s)), k))
      {
        assert safe(Iterate(coarse, view(s), k + 1));
      }
      RunsAgreeWhile(fine, coarse, view, ready, safe, fine(s), n - 1);
    }
  }

  /** The two runs agree after each of the first n steps. */
  ghost predicate AgreeUpTo<S(!new), T(!new)>(fine: S -> S, coarse: T -> T, view: S -> T, s: S, n: nat) {
    forall k :: 0 <= k <= n ==> Iterate(coarse, view(s), k) == view(Iterate(fine, s, k))
  }

  lemma AgreeUpToSplits<S(!new), T(!new)>(fine: S -> S, coarse: T -> T, view: S -> T, s: S, n: nat)
    ensures AgreeUpTo(fine, coarse, view, s, n + 1) <==>
              coarse(view(s)) == view(fine(s)) && AgreeUpTo(fine, coarse, view, fine(s), n)
  {
    assert Iterate(coarse, view(s), 1) == coarse(view(s)) && Iterate(fine, s, 1) == fine(s);
    if AgreeUpTo(fine, coarse, view, s, n + 1) {
      forall k | 0 <= k <= n
        ensures Iterate(coarse, view(fine(s)), k) == view(Iterate(fine, fine(s), k))
      {
        assert Iterate(coarse, view(s), k + 1) == view(Iterate(fine, s, k + 1));
      }
    }
    if coarse(view(s)) == view(fine(s)) && AgreeUpTo(fine, coarse, view, fine(s), n) {
      forall k | 0 <= k <= n + 1
        ensures Iterate(coarse, view(s), k) == view(Iterate(fine, s, k))
      {
        if k > 0 {
          assert Iterate(coarse, view(fine(s)), k - 1) == view(Iterate(fine, fine(s), k - 1));
        }
      }
    }
  }

  /** Every state before the n-th step of a run meets the condition. */
  ghost predicate Throughout<S(!new)>(step: S -> S, ok: S -> bool, s: S, n: nat) {
    forall k :: 0 <= k < n ==> ok(Iterate(step, s, k))
  }

  lemma ThroughoutSplits<S(!new)>(step: S -> S, ok: S -> bool, s: S, n: nat)
    ensures Throughout(step, ok, s, n + 1) <==> ok(s) && Throughout(step, ok, step(s), n)
  {
    assert Iterate(step, s, 0) == s;
    if Throughout(step, ok, s, n + 1) {
      assert ok(Iterate(step, s, 0));
      forall k | 0 <= k < n
        ensures ok(Iterate(step, step(s), k))
      {
        assert ok(Iterate(step, s, k + 1));
      }
    }
    if ok(s) && Throughout(step, ok, step(s), n) {
      forall k | 0 <= k < n + 1
        ensures ok(Iterate(step, s, k))
      {
        if k > 0 {
          assert ok(Iterate(step, step(s), k - 1));
        }
      }
    }
  }

  /** If a condition says exactly when one step agrees, it says exactly which runs agree. */
  lemma {:induction false} RunsAgreeIff<S(!new), T(!new)>(fine: S -> S, coarse: T -> T, view: S -> T, ready: S -> bool,
                                                          ok: S -> bool, s: S, n: nat)
    requires ready(s)
    requires forall x :: ready(x) ==> (coarse(view(x)) == view(fine(x)) <==> ok(x))
    requires forall x :: ready(x) && ok(x) ==> ready(fine(x))
    ensures AgreeUpTo(fine, coarse, view, s, n) <==> Throughout(fine, ok, s, n)
    decreases n
  {
    if n == 0 {
      assert AgreeUpTo(fine, coarse, view, s, 0);
    } else {
      AgreeUpToSplits(fine, coarse, view, s, n - 1);
      ThroughoutSplits(fine, ok, s, n - 1);
      if ok(s) {
        RunsAgreeIff(fine, coarse, view, ready, ok, fine(s), n - 1);
      }
    }
  }
}

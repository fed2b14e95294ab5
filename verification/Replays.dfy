/**
 Replaying a log: each event is skipped, contributes an entry, or breaks the replay, and the
 entries are collected in log order up to the first break.
 */
module Replays {
  import opened Wrappers

  datatype Verdict<+E, +X> = Skip | Keep(entry: E) | Broken(error: X)

  function Replay<E, X>(verdicts: seq<Verdict<E, X>>): Result<seq<E>, X> {
    if verdicts == [] then Success([])
    else
      var before :- Replay(verdicts[..|verdicts| - 1]);
      match verdicts[|verdicts| - 1]
      case Skip => Success(before)
      case Keep(e) => Success(before + [e])
      case Broken(x) => Failure(x)
  }

  function Filter<E>(es: seq<E>, keep: E -> bool): seq<E> {
    if es == [] then []
    else
      var before := Filter(es[..|es| - 1], keep);
      if keep(es[|es| - 1]) then before + [es[|es| - 1]] else before
  }

  function Occurrences<E(==)>(es: seq<E>, e: E): nat {
    if es == [] then 0 else Occurrences(es[..|es| - 1], e) + if es[|es| - 1] == e then 1 else 0
  }

  // xs is ys with some elements left out.
  predicate IsSubsequence<E(==)>(xs: seq<E>, ys: seq<E>) {
    if ys == [] then xs == []
    else
      var rest := ys[..|ys| - 1];
      IsSubsequence(xs, rest) ||
      (xs != [] && xs[|xs| - 1] == ys[|ys| - 1] && IsSubsequence(xs[..|xs| - 1], rest))
  }

  lemma SubsequenceMore<E>(xs: seq<E>, ys: seq<E>, y: E)
    requires IsSubsequence(xs, ys)
    ensures IsSubsequence(xs, ys + [y])
  {
  }

  lemma SubsequenceBoth<E>(xs: seq<E>, ys: seq<E>, y: E)
    requires IsSubsequence(xs, ys)
    ensures IsSubsequence(xs + [y], ys + [y])
  {
  }

  lemma ReplayMore<E, X>(verdicts: seq<Verdict<E, X>>, v: Verdict<E, X>)
    requires Replay(verdicts).Success? && !v.Broken?
    ensures Replay(verdicts + [v]) == Success(Replay(verdicts).value + if v.Keep? then [v.entry] else [])
  {
    assert (verdicts + [v])[..|verdicts|] == verdicts;
    assert Replay(verdicts).value + [] == Replay(verdicts).value;
  }

  // A replay succeeds exactly when no event breaks it.
  lemma {:induction false} ReplaySucceeds<E, X>(verdicts: seq<Verdict<E, X>>)
    ensures Replay(verdicts).Success? <==> forall i :: 0 <= i < |verdicts| ==> !verdicts[i].Broken?
  {
    if verdicts != [] {
      ReplaySucceeds(verdicts[..|verdicts| - 1]);
    }
  }

  lemma {:induction false} ReplayPrefixFails<E, X>(verdicts: seq<Verdict<E, X>>, k: nat)
    requires k <= |verdicts| && Replay(verdicts[..k]).Failure?
    ensures Replay(verdicts) == Replay(verdicts[..k])
    decreases |verdicts|
  {
    if k < |verdicts| {
      var init := verdicts[..|verdicts| - 1];
      assert init[..k] == verdicts[..k];
      ReplayPrefixFails(init, k);
    } else {
      assert verdicts[..k] == verdicts;
    }
  }

  // The first event that breaks a replay decides how it ends.
  lemma ReplayBreaks<E, X>(verdicts: seq<Verdict<E, X>>, k: nat)
    requires k < |verdicts| && Replay(verdicts[..k]).Success? && verdicts[k].Broken?
    ensures Replay(verdicts) == Failure(verdicts[k].error)
  {
    assert verdicts[..k + 1][..k] == verdicts[..k];
    ReplayPrefixFails(verdicts, k + 1);
  }

  // The entries are exactly those that some event contributes.
  lemma {:induction false} ReplayMembers<E, X>(verdicts: seq<Verdict<E, X>>, e: E)
    requires Replay(verdicts).Success?
    ensures e in Replay(verdicts).value <==> exists i :: 0 <= i < |verdicts| && verdicts[i] == Keep(e)
  {
    if verdicts != [] {
      var init := verdicts[..|verdicts| - 1];
      ReplayMembers(init, e);
      if exists i :: 0 <= i < |verdicts| && verdicts[i] == Keep(e) {
        var i :| 0 <= i < |verdicts| && verdicts[i] == Keep(e);
        assert i < |init| ==> init[i] == Keep(e);
      }
      if e in Replay(init).value {
        var i :| 0 <= i < |init| && init[i] == Keep(e);
        assert verdicts[i] == Keep(e);
      }
      assert verdicts[|verdicts| - 1] == Keep(e) ==> e in Replay(verdicts).value;
    }
  }

  // The verdict of an event whose entry no longer qualifies.
  function Drop<E, X>(v: Verdict<E, X>, keep: E -> bool): Verdict<E, X> {
    if v.Keep? && !keep(v.entry) then Skip else v
  }

  // Dropping entries event by event filters the replayed list and moves nothing else.
  lemma {:induction false} ReplayFiltered<E, X>(
      verdicts: seq<Verdict<E, X>>, after: seq<Verdict<E, X>>, keep: E -> bool)
    requires |after| == |verdicts|
    requires forall i :: 0 <= i < |verdicts| ==> after[i] == Drop(verdicts[i], keep)
    ensures Replay(verdicts).Success? ==> Replay(after) == Success(Filter(Replay(verdicts).value, keep))
    ensures Replay(verdicts).Failure? ==> Replay(after) == Replay(verdicts)
  {
    if verdicts != [] {
      var init := verdicts[..|verdicts| - 1];
      ReplayFiltered(init, after[..|after| - 1], keep);
      var last := verdicts[|verdicts| - 1];
      if Replay(init).Success? && last.Keep? {
        var es := Replay(verdicts).value;
        assert es[..|es| - 1] == Replay(init).value;
      }
    }
  }

  function Change<E, X>(v: Verdict<E, X>, f: E -> E): Verdict<E, X> {
    if v.Keep? then Keep(f(v.entry)) else v
  }

  // Changing entries event by event changes the replayed list entry by entry.
  lemma {:induction false} ReplayChanged<E, X>(
      verdicts: seq<Verdict<E, X>>, after: seq<Verdict<E, X>>, f: E -> E)
    requires |after| == |verdicts|
    requires forall i :: 0 <= i < |verdicts| ==> after[i] == Change(verdicts[i], f)
    ensures Replay(verdicts).Failure? ==> Replay(after) == Replay(verdicts)
    ensures Replay(verdicts).Success? ==>
      && Replay(after).Success? && |Replay(after).value| == |Replay(verdicts).value|
      && forall i :: 0 <= i < |Replay(verdicts).value| ==> Replay(after).value[i] == f(Replay(verdicts).value[i])
  {
    if verdicts != [] {
      ReplayChanged(verdicts[..|verdicts| - 1], after[..|after| - 1], f);
    }
  }

  // Filtering leaves elements out, exactly those that do not qualify.
  lemma {:induction false} FilterSubsequence<E>(es: seq<E>, keep: E -> bool)
    ensures IsSubsequence(Filter(es, keep), es)
    ensures forall e :: e in Filter(es, keep) <==> e in es && keep(e)
  {
    if es != [] {
      var init := es[..|es| - 1];
      FilterSubsequence(init, keep);
      assert es == init + [es[|es| - 1]];
      var fs := Filter(es, keep);
      if keep(es[|es| - 1]) {
        assert fs[..|fs| - 1] == Filter(init, keep);
      }
    }
  }

  lemma {:induction false} OccursOrNot<E>(es: seq<E>, e: E)
    ensures Occurrences(es, e) > 0 <==> e in es
  {
    if es != [] {
      OccursOrNot(es[..|es| - 1], e);
      assert es == es[..|es| - 1] + [es[|es| - 1]];
    }
  }

  lemma OccursOnceMore<E>(es: seq<E>, last: E, e: E)
    ensures Occurrences(es + [last], e) == Occurrences(es, e) + if last == e then 1 else 0
  {
  }

  predicate Distinct<E(==)>(es: seq<E>) {
    forall i, j :: 0 <= i < j < |es| ==> es[i] != es[j]
  }

  lemma DistinctStep<E>(es: seq<E>)
    requires es != []
    ensures Distinct(es) <==> Distinct(es[..|es| - 1]) && es[|es| - 1] !in es[..|es| - 1]
  {
  }

  lemma {:induction false} DistinctOccursOnce<E>(es: seq<E>, e: E)
    requires Distinct(es)
    ensures Occurrences(es, e) <= 1
  {
    if es != [] {
      DistinctStep(es);
      DistinctOccursOnce(es[..|es| - 1], e);
      OccursOrNot(es[..|es| - 1], e);
    }
  }

  lemma {:induction false} RepeatedElement<E>(es: seq<E>) returns (e: E)
    requires !Distinct(es)
    ensures Occurrences(es, e) > 1
  {
    DistinctStep(es);
    var init := es[..|es| - 1];
    if Distinct(init) {
      e := es[|es| - 1];
      OccursOrNot(init, e);
    } else {
      e := RepeatedElement(init);
    }
  }
}

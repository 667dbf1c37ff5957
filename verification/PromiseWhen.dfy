/** Waiting for several promises: `_when` gives up at the first rejection, `when(resolved:)` collects
    every result.  Their callbacks come in any order, each at most once and with its promise's result. */
module PromiseWhen {
  import opened Options

  datatype Result<+T, +E> = Fulfilled(value: T) | Rejected(error: E)

  datatype Outcome<+E> = Pending | Done(result: Result<(), E>)

  // ----- when(fulfilled:) -----

  // The block that a callback of _when runs under the barrier.
  class When<T, E> {
    var countdown: int
    var rp: Outcome<E>

    // Nothing to wait for: fulfilled at once.
    constructor (count: nat)
      ensures countdown == count && rp == if count == 0 then Done(Fulfilled(())) else Pending
    {
      countdown := count;
      rp := if count == 0 then Done(Fulfilled(())) else Pending;
    }

    // Once done, nothing changes; a rejection is final at once, a fulfilment when it is the last.
    method Callback(result: Result<T, E>)
      modifies this
      ensures old(rp).Done? ==> rp == old(rp) && countdown == old(countdown)
      ensures old(rp).Pending? && result.Rejected? ==> rp == Done(Rejected(result.error))
      ensures old(rp).Pending? && result.Fulfilled? ==>
        countdown == old(countdown) - 1 && (rp == if old(countdown) == 1 then Done(Fulfilled(())) else Pending)
      ensures (countdown, rp) == AfterCallback(old(countdown), old(rp), result)
    {
      match result
      case Rejected(error) =>
        if rp.Pending? {
          rp := Done(Rejected(error));
        }
      case Fulfilled(_) =>
        if !rp.Pending? {
          return;
        }
        countdown := countdown - 1;
        if countdown == 0 {
          rp := Done(Fulfilled(()));
        }
    }
  }

  function AfterCallback<T, E>(countdown: int, rp: Outcome<E>, result: Result<T, E>): (int, Outcome<E>) {
    if !rp.Pending? then (countdown, rp)
    else match result
      case Rejected(error) => (countdown, Done(Rejected(error)))
      case Fulfilled(_) => (countdown - 1, if countdown - 1 == 0 then Done(Fulfilled(())) else rp)
  }

  // The state after the callbacks of the promises in `order`.
  function AfterAll<T, E>(results: seq<Result<T, E>>, order: seq<nat>): (int, Outcome<E>)
    requires forall k | 0 <= k < |order| :: order[k] < |results|
  {
    if order == [] then (|results|, if results == [] then Done(Fulfilled(())) else Pending)
    else
      var (countdown, rp) := AfterAll(results, order[..|order| - 1]);
      AfterCallback(countdown, rp, results[order[|order| - 1]])
  }

  // Every promise calls back at most once.
  ghost predicate Callbacks<T, E>(results: seq<Result<T, E>>, order: seq<nat>) {
    && (forall k | 0 <= k < |order| :: order[k] < |results|)
    && forall k, l | 0 <= k < l < |order| :: order[k] != order[l]
  }

  // The first rejection among the callbacks so far; their number when there is none.
  function FirstRejection<T, E>(results: seq<Result<T, E>>, order: seq<nat>): (k: nat)
    requires forall k | 0 <= k < |order| :: order[k] < |results|
    ensures k <= |order| && (forall l | 0 <= l < k :: results[order[l]].Fulfilled?)
    ensures k < |order| ==> results[order[k]].Rejected?
  {
    if order == [] then 0 else
      var k := FirstRejection(results, order[..|order| - 1]);
      if k < |order| - 1 || results[order[|order| - 1]].Rejected? then k else |order|
  }

  // With distinct indices there are no more callbacks than promises.
  lemma {:induction false} FewCallbacks(order: seq<nat>, n: nat)
    requires (forall k | 0 <= k < |order| :: order[k] < n) && forall k, l | 0 <= k < l < |order| :: order[k] != order[l]
    ensures |order| <= n
    ensures |order| == n ==> forall i: nat | i < n :: i in order
  {
    var first := if order == [] then n else order[0];
    assert first < n || order == [];
    if n == 0 {
    } else if n - 1 in order {
      var k :| 0 <= k < |order| && order[k] == n - 1;
      var rest := order[..k] + order[k + 1..];
      forall j | 0 <= j < |rest| ensures rest[j] < n - 1 {
        assert rest[j] == if j < k then order[j] else order[j + 1];
      }
      FewCallbacks(rest, n - 1);
      forall i: nat | i < n - 1 && i in rest ensures i in order {
      }
    } else {
      FewCallbacks(order, n - 1);
    }
  }

  // In any order of callbacks: pending until the first rejection or the last fulfilment, then for good
  // what that one brought.
  lemma {:induction false} WhenIsRight<T, E>(results: seq<Result<T, E>>, order: seq<nat>)
    requires results != [] && Callbacks(results, order)
    ensures var first := FirstRejection(results, order);
      AfterAll(results, order)
      == if first < |order| then (|results| - first, Done(Rejected(results[order[first]].error)))
         else (|results| - |order|, if |order| == |results| then Done(Fulfilled(())) else Pending)
  {
    FewCallbacks(order, |results|);
    if order != [] {
      WhenIsRight(results, order[..|order| - 1]);
    }
  }

  // After all callbacks: fulfilled if and only if all promises are.
  lemma WhenFulfils<T, E>(results: seq<Result<T, E>>, order: seq<nat>)
    requires Callbacks(results, order) && |order| == |results|
    ensures AfterAll(results, order).1 == Done(Fulfilled(())) <==> forall i | 0 <= i < |results| :: results[i].Fulfilled?
    ensures (exists i | 0 <= i < |results| :: results[i].Rejected?) ==>
              exists k | 0 <= k < |order| :: results[order[k]].Rejected?
                && (forall l | 0 <= l < k :: results[order[l]].Fulfilled?)
                && AfterAll(results, order).1 == Done(Rejected(results[order[k]].error))
  {
    FewCallbacks(order, |results|);
    if results != [] {
      WhenIsRight(results, order);
      var k := FirstRejection(results, order);
      if k == |order| {
        forall i | 0 <= i < |results| ensures results[i].Fulfilled? {
          assert i in order;
        }
      }
    }
  }

  // ----- when(resolved:) -----

  // A promise that is pending; one whose callback has not counted yet; one that has still to look at the
  // counter; and one that is done.
  datatype Stage = Unresolved | Waiting | Counted | Finished

  // The value of every promise that has been resolved, the countdown, the guarantee, and where each
  // callback stands.
  datatype Join<+R> = Join(promises: seq<Option<R>>, countdown: int, rg: Sealed<R>, stages: seq<Stage>)

  // Unwrapping the result of a pending promise would be a crash.
  datatype Sealed<+R> = Unsealed | SealedWith(results: seq<R>) | Crashed

  // The results of all promises, or nothing while one of them is pending.
  function Collected<R>(promises: seq<Option<R>>): (r: Option<seq<R>>)
    ensures r.Some? <==> forall i | 0 <= i < |promises| :: promises[i].Some?
    ensures r.Some? ==> |r.value| == |promises| && forall i | 0 <= i < |promises| :: promises[i] == Some(r.value[i])
  {
    if promises == [] then Some([])
    else
      var n := |promises| - 1;
      var front := Collected(promises[..n]);
      if front.Some? && promises[n].Some? then Some(front.value + [promises[n].value]) else None
  }

  // What a look at the counter makes of the guarantee; its box keeps the first value it is sealed with.
  function Looked<R>(countdown: int, rg: Sealed<R>, promises: seq<Option<R>>): Sealed<R> {
    if countdown != 0 then rg
    else if Collected(promises).None? then Crashed
    else if rg.Unsealed? then SealedWith(Collected(promises).value)
    else rg
  }

  // Counting down under the barrier, and looking at the counter later, are two steps: others may come
  // in between.
  class Joiner<R> {
    var countdown: int
    var rg: Sealed<R>

    constructor (count: nat)
      ensures countdown == count && rg == if count == 0 then SealedWith([]) else Unsealed
    {
      countdown := count;
      rg := if count == 0 then SealedWith([]) else Unsealed;
    }

    // The first block of a callback.
    method CountDown()
      modifies this
      ensures countdown == old(countdown) - 1 && rg == old(rg)
    {
      countdown := countdown - 1;
    }

    // The second block.
    method SealIfLast(promises: seq<Option<R>>)
      modifies this
      ensures countdown == old(countdown) && rg == Looked(countdown, old(rg), promises)
    {
      if countdown == 0 {
        var results: seq<R> := [];
        for i := 0 to |promises|
          invariant Collected(promises[..i]) == Some(results)
        {
          assert promises[..i + 1][..i] == promises[..i];
          if promises[i].None? {
            MissingOne(promises, i);
            rg := Crashed;
            return;
          }
          results := results + [promises[i].value];
        }
        assert promises[..|promises|] == promises;
        if rg.Unsealed? {
          rg := SealedWith(results);
        }
      }
    }
  }

  lemma MissingOne<R>(promises: seq<Option<R>>, i: nat)
    requires i < |promises| && promises[i].None?
    ensures Collected(promises) == None
  {
  }

  // One step of promise i or of its callback.
  function JoinStep<R>(j: Join<R>, results: seq<R>, i: nat): (j': Join<R>)
    requires i < |j.stages| == |j.promises| == |results|
    ensures |j'.stages| == |j'.promises| == |results|
  {
    match j.stages[i]
    case Unresolved => j.(promises := j.promises[i := Some(results[i])], stages := j.stages[i := Waiting])
    case Waiting => j.(countdown := j.countdown - 1, stages := j.stages[i := Counted])
    case Counted => j.(rg := Looked(j.countdown, j.rg, j.promises), stages := j.stages[i := Finished])
    case Finished => j
  }

  predicate HasToCount(s: Stage) {
    s.Unresolved? || s.Waiting?
  }

  function StillToCount(stages: seq<Stage>): nat {
    if stages == [] then 0
    else StillToCount(stages[..|stages| - 1]) + if HasToCount(stages[|stages| - 1]) then 1 else 0
  }

  lemma {:induction false} CountChanges(stages: seq<Stage>, i: nat, s: Stage)
    requires i < |stages|
    ensures StillToCount(stages[i := s])
         == StillToCount(stages) - (if HasToCount(stages[i]) then 1 else 0) + if HasToCount(s) then 1 else 0
  {
    var n := |stages| - 1;
    if i < n {
      assert stages[i := s][..n] == stages[..n][i := s];
      CountChanges(stages[..n], i, s);
    } else {
      assert stages[i := s][..n] == stages[..n];
    }
  }

  lemma {:induction false} NobodyCounts(stages: seq<Stage>)
    ensures StillToCount(stages) == 0 <==> forall i | 0 <= i < |stages| :: !HasToCount(stages[i])
  {
    if stages != [] {
      NobodyCounts(stages[..|stages| - 1]);
    }
  }

  // The counter counts those that have still to count.  Who is past that has a result.  Nothing is sealed
  // before the counter is zero, and from then on either the guarantee is sealed with all results or
  // somebody is still going to look.
  ghost predicate JoinInvariant<R>(j: Join<R>, results: seq<R>) {
    && |j.stages| == |j.promises| == |results| > 0
    && (forall i | 0 <= i < |results| :: j.promises[i] == if j.stages[i].Unresolved? then None else Some(results[i]))
    && j.countdown == StillToCount(j.stages)
    && !j.rg.Crashed?
    && (j.rg.SealedWith? ==> j.countdown == 0 && j.rg.results == results)
    && (j.countdown == 0 ==> j.rg.SealedWith? || exists i :: 0 <= i < |j.stages| && j.stages[i].Counted?)
  }

  // At zero every promise has its result, so what is collected is all of them, in input order.
  lemma AllCollected<R>(j: Join<R>, results: seq<R>)
    requires JoinInvariant(j, results) && j.countdown == 0
    ensures Collected(j.promises) == Some(results)
  {
    NobodyCounts(j.stages);
    forall i | 0 <= i < |results| ensures j.promises[i] == Some(results[i]) {
      assert !HasToCount(j.stages[i]);
    }
    assert Collected(j.promises).value == results;
  }

  lemma JoinKeeps<R>(j: Join<R>, results: seq<R>, i: nat)
    requires JoinInvariant(j, results) && i < |j.stages|
    ensures JoinInvariant(JoinStep(j, results, i), results)
    ensures j.rg.SealedWith? ==> JoinStep(j, results, i).rg == j.rg
  {
    hide Collected;
    var j' := JoinStep(j, results, i);
    CountChanges(j.stages, i, j'.stages[i]);
    assert j'.stages == j.stages[i := j'.stages[i]];
    NobodyCounts(j.stages);
    if j.countdown == 0 {
      AllCollected(j, results);
      assert !HasToCount(j.stages[i]);
      if !j'.rg.SealedWith? {
        var k :| 0 <= k < |j.stages| && j.stages[k].Counted?;
        assert j'.stages[k].Counted?;
      }
    } else if j'.countdown == 0 {
      assert j'.stages[i].Counted?;
    }
  }

  function JoinRun<R>(results: seq<R>, schedule: seq<nat>): (j: Join<R>)
    requires forall k | 0 <= k < |schedule| :: schedule[k] < |results|
    ensures |j.stages| == |j.promises| == |results|
  {
    if schedule == [] then Join(seq(|results|, _ => None), |results|, Unsealed, seq(|results|, _ => Unresolved))
    else JoinStep(JoinRun(results, schedule[..|schedule| - 1]), results, schedule[|schedule| - 1])
  }

  lemma {:induction false} AllHaveToCount(n: nat)
    ensures StillToCount(seq(n, _ => Unresolved)) == n
  {
    if n > 0 {
      assert seq(n, _ => Unresolved)[..n - 1] == seq(n - 1, _ => Unresolved);
      AllHaveToCount(n - 1);
    }
  }

  lemma {:induction false} JoinRunKeeps<R>(results: seq<R>, schedule: seq<nat>)
    requires results != [] && forall k | 0 <= k < |schedule| :: schedule[k] < |results|
    ensures JoinInvariant(JoinRun(results, schedule), results)
  {
    if schedule == [] {
      AllHaveToCount(|results|);
    } else {
      JoinRunKeeps(results, schedule[..|schedule| - 1]);
      JoinKeeps(JoinRun(results, schedule[..|schedule| - 1]), results, schedule[|schedule| - 1]);
    }
  }

  // Promises resolve and callbacks run in any order, and several callbacks may see the counter at zero.
  // No result is unwrapped before it is there; the guarantee is sealed with all results in input order,
  // never before every promise is resolved and counted, and always once every callback has finished.
  lemma JoinIsRight<R>(results: seq<R>, schedule: seq<nat>)
    requires results != [] && forall k | 0 <= k < |schedule| :: schedule[k] < |results|
    ensures var j := JoinRun(results, schedule);
      && !j.rg.Crashed?
      && (j.rg.SealedWith? ==> j.rg.results == results && forall i | 0 <= i < |results| :: !HasToCount(j.stages[i]))
      && ((forall i | 0 <= i < |results| :: j.stages[i].Finished?) ==> j.rg == SealedWith(results))
  {
    hide Collected;
    var j := JoinRun(results, schedule);
    JoinRunKeeps(results, schedule);
    NobodyCounts(j.stages);
    if forall i | 0 <= i < |results| :: j.stages[i].Finished? {
      assert forall i | 0 <= i < |j.stages| :: !HasToCount(j.stages[i]);
    }
  }
}

/** The box inside a promise: sealed at most once, while handlers are piped into it.

    The barrier queue makes a few blocks of code atomic; the threads that seal and pipe interleave
    arbitrarily between them. */
module PromiseBoxes {
  import opened Options

  // A handler is known by the thread that pipes it.
  type Handler = nat

  datatype Sealant<T> = Pending(bodies: seq<Handler>) | Resolved(value: T)

  // ----- the atomic blocks -----

  // The block in seal: the first one gets the handlers, later ones get nothing.
  function SealBlock<T>(s: Sealant<T>, value: T): (Sealant<T>, Option<seq<Handler>>) {
    match s
    case Pending(bodies) => (Resolved(value), Some(bodies))
    case Resolved(_) => (s, None)
  }

  // The block in inspect(_:), with the body that pipe gives it; true when it found the box sealed.
  function PipeBlock<T>(s: Sealant<T>, handler: Handler): (Sealant<T>, bool) {
    match s
    case Pending(bodies) => (Pending(bodies + [handler]), false)
    case Resolved(_) => (s, true)
  }

  class EmptyBox<T> {
    var sealant: Sealant<T>

    constructor ()
      ensures sealant == Pending([])
    {
      sealant := Pending([]);
    }

    // The first value seals the box and is handed all handlers; later values find it sealed.
    method Seal(value: T) returns (handlers: Option<seq<Handler>>)
      modifies this
      ensures old(sealant).Pending? ==> sealant == Resolved(value) && handlers == Some(old(sealant).bodies)
      ensures old(sealant).Resolved? ==> sealant == old(sealant) && handlers == None
      ensures (sealant, handlers) == SealBlock(old(sealant), value)
    {
      handlers := None;
      if sealant.Pending? {
        handlers := Some(sealant.bodies);
        sealant := Resolved(value);
      }
    }

    // A pending box keeps the handler, after those before it; a resolved one stays as it is.
    method InspectAndAppend(handler: Handler) returns (sealed: bool)
      modifies this
      ensures sealed <==> old(sealant).Resolved?
      ensures !sealed ==> sealant == Pending(old(sealant).bodies + [handler])
      ensures sealed ==> sealant == old(sealant)
      ensures (sealant, sealed) == PipeBlock(old(sealant), handler)
    {
      sealed := false;
      if sealant.Pending? {
        sealant := Pending(sealant.bodies + [handler]);
      } else {
        sealed := true;
      }
    }
  }

  // ----- threads -----

  // Where a thread stands: a sealer before its block or running the handlers it took; a piper before
  // its first look, before its block, or about to run its handler itself.
  datatype Thread<T> =
    | Sealer(value: T)
    | Running(rest: seq<Handler>, with: T)
    | Piper
    | Appender
    | Caller(seen: Option<T>)
    | Finished

  // `log` is every call of a handler, with the value it got.
  datatype World<T> = World(sealant: Sealant<T>, threads: seq<Thread<T>>, log: seq<(Handler, T)>)

  // One step of thread i.
  function Step<T>(w: World<T>, i: nat): (w': World<T>)
    requires i < |w.threads|
    ensures |w'.threads| == |w.threads|
  {
    match w.threads[i]
    case Sealer(value) =>
      var (s, handlers) := SealBlock(w.sealant, value);
      World(s, w.threads[i := if handlers.Some? then Running(handlers.value, value) else Finished], w.log)
    case Running(rest, value) =>
      if rest == [] then w.(threads := w.threads[i := Finished])
      else World(w.sealant, w.threads[i := Running(rest[1..], value)], w.log + [(rest[0], value)])
    case Piper =>
      w.(threads := w.threads[i := if w.sealant.Resolved? then Caller(Some(w.sealant.value)) else Appender])
    case Appender =>
      var (s, sealed) := PipeBlock(w.sealant, i);
      World(s, w.threads[i := if sealed then Caller(None) else Finished], w.log)
    case Caller(seen) =>
      // either the value of the first look, or the sealant read once more outside of the barrier
      var value := if seen.Some? then seen else if w.sealant.Resolved? then Some(w.sealant.value) else None;
      if value.None? then w
      else World(w.sealant, w.threads[i := Finished], w.log + [(i, value.value)])
    case Finished => w
  }

  predicate Fresh<T>(t: Thread<T>) {
    t.Sealer? || t.Piper?
  }

  function Begin<T>(threads: seq<Thread<T>>): World<T> {
    World(Pending([]), threads, [])
  }

  function Run<T>(threads: seq<Thread<T>>, schedule: seq<nat>): (w: World<T>)
    requires forall k | 0 <= k < |schedule| :: schedule[k] < |threads|
    ensures |w.threads| == |threads|
  {
    if schedule == [] then Begin(threads)
    else Step(Run(threads, schedule[..|schedule| - 1]), schedule[|schedule| - 1])
  }

  // ----- where a handler is -----

  function Occurrences(s: seq<Handler>, h: Handler): nat {
    if s == [] then 0 else (if s[0] == h then 1 else 0) + Occurrences(s[1..], h)
  }

  // How often thread i has the handler in its hands.
  function HeldBy<T>(t: Thread<T>, i: nat, h: Handler): nat {
    match t
    case Running(rest, _) => Occurrences(rest, h)
    case Sealer(_) => 0
    case Finished => 0
    case _ => if i == h then 1 else 0
  }

  function Held<T>(threads: seq<Thread<T>>, n: nat, h: Handler): nat
    requires n <= |threads|
  {
    if n == 0 then 0 else Held(threads, n - 1, h) + HeldBy(threads[n - 1], n - 1, h)
  }

  function Calls<T>(log: seq<(Handler, T)>, h: Handler): nat {
    if log == [] then 0 else Calls(log[..|log| - 1], h) + if log[|log| - 1].0 == h then 1 else 0
  }

  function Waits<T>(s: Sealant<T>, h: Handler): nat {
    if s.Pending? then Occurrences(s.bodies, h) else 0
  }

  // Everywhere the handler is: with a thread, in the box, or called.
  function Everywhere<T>(w: World<T>, h: Handler): nat {
    Held(w.threads, |w.threads|, h) + Waits(w.sealant, h) + Calls(w.log, h)
  }

  lemma {:induction false} HeldChanges<T>(threads: seq<Thread<T>>, i: nat, t: Thread<T>, n: nat, h: Handler)
    requires i < |threads| && n <= |threads|
    ensures Held(threads[i := t], n, h)
         == Held(threads, n, h) + if i < n then HeldBy(t, i, h) - HeldBy(threads[i], i, h) else 0
  {
    if n > 0 {
      HeldChanges(threads, i, t, n - 1, h);
    }
  }

  lemma OneMoreCall<T>(log: seq<(Handler, T)>, call: (Handler, T), h: Handler)
    ensures Calls(log + [call], h) == Calls(log, h) + if call.0 == h then 1 else 0
  {
    assert (log + [call])[..|log|] == log;
  }

  lemma {:induction false} OneMoreHandler(s: seq<Handler>, x: Handler, h: Handler)
    ensures Occurrences(s + [x], h) == Occurrences(s, h) + if x == h then 1 else 0
  {
    if s == [] {
      assert Occurrences([x], h) == (if x == h then 1 else 0) + Occurrences([], h) by { assert [x][1..] == []; }
      assert s + [x] == [x];
    } else {
      OneMoreHandler(s[1..], x, h);
      assert (s + [x])[1..] == s[1..] + [x];
    }
  }

  // A step moves handlers about, but neither loses nor doubles one.
  lemma StepConserves<T>(w: World<T>, i: nat, h: Handler)
    requires i < |w.threads|
    ensures Everywhere(Step(w, i), h) == Everywhere(w, h)
  {
    hide Held, Calls;
    var t, t' := w.threads[i], Step(w, i).threads[i];
    HeldChanges(w.threads, i, t', |w.threads|, h);
    if t.Running? && t.rest != [] {
      OneMoreCall(w.log, (t.rest[0], t.with), h);
    } else if t.Caller? && t'.Finished? {
      OneMoreCall(w.log, Step(w, i).log[|w.log|], h);
    } else if t.Appender? && w.sealant.Pending? {
      OneMoreHandler(w.sealant.bodies, i, h);
    }
  }

  // ----- one value for all -----

  // What a thread knows of the value.
  predicate Knows<T(==)>(t: Thread<T>, s: Sealant<T>) {
    match t
    case Running(_, value) => s == Resolved(value)
    case Caller(seen) => s.Resolved? && (seen.Some? ==> s.value == seen.value)
    case _ => true
  }

  ghost predicate Agreed<T>(w: World<T>) {
    && (forall i | 0 <= i < |w.threads| :: Knows(w.threads[i], w.sealant))
    && (forall k | 0 <= k < |w.log| :: w.sealant == Resolved(w.log[k].1))
  }

  lemma StepAgrees<T>(w: World<T>, i: nat)
    requires i < |w.threads| && Agreed(w)
    ensures Agreed(Step(w, i))
    ensures w.sealant.Resolved? ==> Step(w, i).sealant == w.sealant
    ensures w.threads[i].Sealer? ==> Step(w, i).sealant.Resolved?
  {
  }

  ghost predicate Scheduled<T>(threads: seq<Thread<T>>, schedule: seq<nat>) {
    && (forall i | 0 <= i < |threads| :: Fresh(threads[i]))
    && forall k | 0 <= k < |schedule| :: schedule[k] < |threads|
  }

  lemma {:induction false} RunAgrees<T>(threads: seq<Thread<T>>, schedule: seq<nat>)
    requires Scheduled(threads, schedule)
    ensures Agreed(Run(threads, schedule))
  {
    hide Step;
    if schedule != [] {
      RunAgrees(threads, schedule[..|schedule| - 1]);
      StepAgrees(Run(threads, schedule[..|schedule| - 1]), schedule[|schedule| - 1]);
    }
  }

  // A promise is resolved at most once: whatever comes later, the value stays.
  lemma {:induction false} SealedForGood<T>(threads: seq<Thread<T>>, schedule: seq<nat>, more: seq<nat>)
    requires Scheduled(threads, schedule + more)
    requires forall k | 0 <= k < |schedule| :: schedule[k] < |threads|
    ensures var s := Run(threads, schedule).sealant;
      s.Resolved? ==> Run(threads, schedule + more).sealant == s
  {
    hide Step;
    if more == [] {
      assert schedule + more == schedule;
    } else {
      var n := |more| - 1;
      assert schedule + more == (schedule + more[..n]) + [more[n]];
      assert more[n] == (schedule + more)[|schedule| + n];
      assert (schedule + more)[..|schedule + more| - 1] == schedule + more[..n];
      SealedForGood(threads, schedule, more[..n]);
      RunAgrees(threads, schedule + more[..n]);
      StepAgrees(Run(threads, schedule + more[..n]), more[n]);
    }
  }

  // ----- every handler once -----

  lemma {:induction false} HeldAtFirst<T>(threads: seq<Thread<T>>, n: nat, h: Handler)
    requires n <= |threads| && forall i | 0 <= i < |threads| :: Fresh(threads[i])
    ensures Held(threads, n, h) == if h < n && threads[h].Piper? then 1 else 0
  {
    if n > 0 {
      HeldAtFirst(threads, n - 1, h);
    }
  }

  lemma {:induction false} RunConserves<T>(threads: seq<Thread<T>>, schedule: seq<nat>, h: Handler)
    requires Scheduled(threads, schedule)
    ensures Everywhere(Run(threads, schedule), h) == if h < |threads| && threads[h].Piper? then 1 else 0
  {
    hide Step, Held;
    if schedule == [] {
      HeldAtFirst(threads, |threads|, h);
    } else {
      RunConserves(threads, schedule[..|schedule| - 1], h);
      StepConserves(Run(threads, schedule[..|schedule| - 1]), schedule[|schedule| - 1], h);
    }
  }

  // Under every interleaving: a handler is called at most once, and with the sealed value.
  lemma CalledAtMostOnce<T>(threads: seq<Thread<T>>, schedule: seq<nat>, h: Handler)
    requires Scheduled(threads, schedule)
    ensures var w := Run(threads, schedule);
      && Calls(w.log, h) <= (if h < |threads| && threads[h].Piper? then 1 else 0)
      && forall k | 0 <= k < |w.log| :: w.sealant == Resolved(w.log[k].1)
  {
    hide Held, Calls, Step;
    RunConserves(threads, schedule, h);
    RunAgrees(threads, schedule);
  }

  lemma {:induction false} NothingHeld<T>(threads: seq<Thread<T>>, n: nat, h: Handler)
    requires n <= |threads| && forall i | 0 <= i < |threads| :: threads[i].Finished?
    ensures Held(threads, n, h) == 0
  {
    if n > 0 {
      NothingHeld(threads, n - 1, h);
    }
  }

  // A sealer that has gone ahead has sealed the box, or found it sealed.
  lemma {:induction false} SealersSeal<T>(threads: seq<Thread<T>>, schedule: seq<nat>, i: nat)
    requires Scheduled(threads, schedule) && i < |threads| && threads[i].Sealer?
    ensures var w := Run(threads, schedule); w.threads[i].Sealer? || w.sealant.Resolved?
  {
    hide Step;
    if schedule != [] {
      var before, last := schedule[..|schedule| - 1], schedule[|schedule| - 1];
      SealersSeal(threads, before, i);
      RunAgrees(threads, before);
      StepAgrees(Run(threads, before), last);
      if last != i {
        OthersStay(Run(threads, before), last, i);
      }
    }
  }

  lemma OthersStay<T>(w: World<T>, i: nat, j: nat)
    requires i < |w.threads| && j < |w.threads| && i != j
    ensures Step(w, i).threads[j] == w.threads[j]
  {
  }

  // When all threads have finished, every piped handler has been called exactly once if anybody sealed
  // the box, and waits in it exactly once otherwise.
  lemma CalledExactlyOnce<T>(threads: seq<Thread<T>>, schedule: seq<nat>, h: Handler)
    requires Scheduled(threads, schedule) && h < |threads| && threads[h].Piper?
    requires forall i | 0 <= i < |threads| :: Run(threads, schedule).threads[i].Finished?
    ensures var w := Run(threads, schedule);
      && (w.sealant.Resolved? ==> Calls(w.log, h) == 1)
      && (w.sealant.Pending? ==> Occurrences(w.sealant.bodies, h) == 1 && w.log == [])
      && (forall i | 0 <= i < |threads| :: threads[i].Sealer? ==> w.sealant.Resolved?)
  {
    hide Held, Calls, Step, Occurrences;
    var w := Run(threads, schedule);
    RunConserves(threads, schedule, h);
    RunAgrees(threads, schedule);
    NothingHeld(w.threads, |w.threads|, h);
    NoCalls(h, w.log);
    assert w.log != [] ==> w.sealant == Resolved(w.log[0].1);
    forall i | 0 <= i < |threads| && threads[i].Sealer? ensures w.sealant.Resolved? {
      SealersSeal(threads, schedule, i);
    }
  }

  lemma NoCalls<T>(h: Handler, log: seq<(Handler, T)>)
    ensures log == [] ==> Calls(log, h) == 0
  {
  }

  // ----- no thread gets stuck -----

  function Work<T>(t: Thread<T>): nat {
    match t
    case Sealer(_) => 2
    case Running(rest, _) => 1 + |rest|
    case Piper => 4
    case Appender => 3
    case Caller(_) => 2
    case Finished => 0
  }

  function AllWork<T>(threads: seq<Thread<T>>, n: nat): nat
    requires n <= |threads|
  {
    if n == 0 then 0 else AllWork(threads, n - 1) + Work(threads[n - 1])
  }

  function Remaining<T>(w: World<T>): nat {
    AllWork(w.threads, |w.threads|) + if w.sealant.Pending? then |w.sealant.bodies| else 0
  }

  lemma {:induction false} WorkChanges<T>(threads: seq<Thread<T>>, i: nat, t: Thread<T>, n: nat)
    requires i < |threads| && n <= |threads|
    ensures AllWork(threads[i := t], n) == AllWork(threads, n) + if i < n then Work(t) - Work(threads[i]) else 0
  {
    if n > 0 {
      WorkChanges(threads, i, t, n - 1);
    }
  }

  // Every step of an unfinished thread brings the end nearer, so no run is longer than the work at its
  // beginning.
  lemma StepsRunOut<T>(w: World<T>, i: nat)
    requires i < |w.threads| && Agreed(w) && !w.threads[i].Finished?
    ensures Remaining(Step(w, i)) < Remaining(w)
  {
    hide AllWork;
    WorkChanges(w.threads, i, Step(w, i).threads[i], |w.threads|);
  }
}

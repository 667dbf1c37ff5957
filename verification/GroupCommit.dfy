/** The writer queue: writers wait in line, and the one in front writes for a whole group. */
module GroupCommit {
  import opened Options
  import opened Sequences

  // A batch of operations; none for a writer that only asks for a new memtable.
  datatype Writer<Op> = Writer(id: nat, batch: Option<seq<Op>>, sync: bool, bytes: nat)

  function BatchOf<Op>(w: Writer<Op>): seq<Op> {
    if w.batch.Some? then w.batch.value else []
  }

  // All operations of some writers, in order.
  function OpsOf<Op>(ws: seq<Writer<Op>>): seq<Op> {
    if ws == [] then [] else OpsOf(ws[..|ws| - 1]) + BatchOf(ws[|ws| - 1])
  }

  function BytesOf<Op>(ws: seq<Writer<Op>>): nat {
    if ws == [] then 0
    else BytesOf(ws[..|ws| - 1]) + if ws[|ws| - 1].batch.Some? then ws[|ws| - 1].bytes else 0
  }

  const SMALL: nat := 131072
  const LARGE: nat := 1048576

  // A small write is not slowed down by a large group.
  function MaxSize(first: nat): nat {
    if first <= SMALL then first + SMALL else LARGE
  }

  // The first k writers may go together.
  ghost predicate IsGroup<Op>(queue: seq<Writer<Op>>, k: nat) {
    && 1 <= k <= |queue| && queue[0].batch.Some?
    && (forall i | 0 <= i < k && queue[i].sync :: queue[0].sync)
    && (BytesOf(queue[..k]) <= MaxSize(queue[0].bytes) || forall i | 0 < i < k :: queue[i].batch.None?)
  }

  // BuildBatchGroup: as many writers as may go with the first one.
  method BuildBatchGroup<Op>(queue: seq<Writer<Op>>) returns (k: nat, updates: seq<Op>)
    requires queue != [] && queue[0].batch.Some?
    ensures IsGroup(queue, k) && updates == OpsOf(queue[..k])
    ensures k < |queue| ==> !IsGroup(queue, k + 1)
  {
    var first := queue[0];
    updates := first.batch.value;
    var size := first.bytes;
    var maxSize := MaxSize(size);
    k := 1;
    assert queue[..1] == [first];
    while k < |queue|
      invariant IsGroup(queue, k) && updates == OpsOf(queue[..k]) && size == BytesOf(queue[..k])
    {
      var w := queue[k];
      assert queue[..k + 1][..k] == queue[..k];
      if w.sync && !first.sync {
        return;  // no sync write in a group that is not synced
      }
      if w.batch.Some? {
        size := size + w.bytes;
        if size > maxSize {
          return;
        }
        updates := updates + w.batch.value;
      }
      k := k + 1;
    }
  }

  // A write of up to 128 KB makes others wait for no more than 128 KB besides itself; a larger one leads a group of
  // up to 1 MB; and a write larger than that goes alone, but for writers without a batch.
  lemma LimitsOfGroup<Op>(queue: seq<Writer<Op>>, k: nat, other: nat)
    requires IsGroup(queue, k) && 0 < other < k && queue[other].batch.Some?
    ensures queue[0].bytes <= 128 * 1024 ==> BytesOf(queue[..k]) <= queue[0].bytes + 128 * 1024
    ensures queue[0].bytes > 128 * 1024 ==> BytesOf(queue[..k]) <= 1024 * 1024
    ensures queue[0].bytes <= 1024 * 1024
  {
    FirstCounts(queue, k);
  }

  lemma {:induction false} FirstCounts<Op>(queue: seq<Writer<Op>>, k: nat)
    requires 1 <= k <= |queue| && queue[0].batch.Some?
    ensures BytesOf(queue[..k]) >= queue[0].bytes
  {
    assert queue[..k][..k - 1] == queue[..k - 1];
    if k > 1 {
      FirstCounts(queue, k - 1);
    }
  }

  // ----- the state -----

  // What became of a group: without a number for its operations (no batch, or no room), or numbered and
  // then written to the log and applied to the memtable as far as the status was good.
  datatype Outcome = Unnumbered(ok: bool) | NotLogged | LoggedOnly | Applied

  datatype Group<Op> = Group(first: nat, writers: seq<Writer<Op>>, outcome: Outcome)

  // Between the steps of its leader the mutex is free, and other writers may queue up.
  datatype Phase =
    | Idle
    | Leading(count: nat)
    | Inserting(count: nat, logged: bool, ok: bool, inserted: nat)

  datatype Record<Op> = Record(first: nat, ops: seq<Op>)

  datatype State<Op> = State(
    queue: seq<Writer<Op>>,
    phase: Phase,
    lastSequence: nat,
    log: seq<Record<Op>>,
    mem: seq<(nat, Op)>,
    answers: seq<(nat, bool)>,
    // what has happened: the groups that are finished, and the writers in order of arrival
    groups: seq<Group<Op>>,
    arrived: seq<Writer<Op>>
  )

  function Initial<Op>(): State<Op> {
    State([], Idle, 0, [], [], [], [], [])
  }

  datatype Action<Op> =
    | Enqueue(w: Writer<Op>)
    | Refuse(ok: bool)         // no group: MakeRoomForWrite has failed, or there is no batch
    | Lead(count: nat)
    | WriteLog(logged: bool, ok: bool)
    | InsertOne
    | Publish

  function OutcomeOf(logged: bool, ok: bool): Outcome {
    if ok then Applied else if logged then LoggedOnly else NotLogged
  }

  function Numbering<Op>(first: nat, ops: seq<Op>): (r: seq<(nat, Op)>)
    ensures |r| == |ops|
  {
    seq(|ops|, i requires 0 <= i < |ops| => (first + i, ops[i]))
  }

  function AnswerAll<Op>(ws: seq<Writer<Op>>, ok: bool): (r: seq<(nat, bool)>)
    ensures |r| == |ws|
  {
    seq(|ws|, i requires 0 <= i < |ws| => (ws[i].id, ok))
  }

  function Leaders<Op>(s: State<Op>, count: nat): seq<Writer<Op>>
    requires count <= |s.queue|
  {
    s.queue[..count]
  }

  ghost predicate Next<Op>(s: State<Op>, a: Action<Op>, s': State<Op>) {
    match a
    case Enqueue(w) =>
      s' == s.(queue := s.queue + [w], arrived := s.arrived + [w])
    case Refuse(ok) =>
      && s.phase.Idle? && s.queue != [] && (ok ==> s.queue[0].batch.None?)
      && s' == s.(queue := s.queue[1..], answers := s.answers + [(s.queue[0].id, ok)],
                  groups := s.groups + [Group(s.lastSequence + 1, [s.queue[0]], Unnumbered(ok))])
    case Lead(count) =>
      s.phase.Idle? && IsGroup(s.queue, count) && s' == s.(phase := Leading(count))
    case WriteLog(logged, ok) =>
      && s.phase.Leading? && s.phase.count <= |s.queue| && (ok ==> logged)
      && s' == s.(phase := Inserting(s.phase.count, logged, ok, 0),
                  log := s.log + if logged then [Record(s.lastSequence + 1, OpsOf(Leaders(s, s.phase.count)))] else [])
    case InsertOne =>
      && s.phase.Inserting? && s.phase.ok && s.phase.count <= |s.queue|
      && var ops := OpsOf(Leaders(s, s.phase.count));
         && s.phase.inserted < |ops|
         && s' == s.(phase := s.phase.(inserted := s.phase.inserted + 1),
                     mem := s.mem + [(s.lastSequence + 1 + s.phase.inserted, ops[s.phase.inserted])])
    case Publish =>
      && s.phase.Inserting? && s.phase.count <= |s.queue|
      && var ws := Leaders(s, s.phase.count);
         && (s.phase.ok ==> s.phase.inserted == |OpsOf(ws)|)
         && s' == s.(phase := Idle, lastSequence := s.lastSequence + |OpsOf(ws)|, queue := s.queue[s.phase.count..],
                     answers := s.answers + AnswerAll(ws, s.phase.ok),
                     groups := s.groups + [Group(s.lastSequence + 1, ws, OutcomeOf(s.phase.logged, s.phase.ok))])
  }

  // ----- what the log, the memtable and the answers amount to -----

  function Numbered<Op>(g: Group<Op>): nat {
    if g.outcome.Unnumbered? then 0 else |OpsOf(g.writers)|
  }

  function Numbers<Op>(gs: seq<Group<Op>>): nat {
    if gs == [] then 0 else Numbers(gs[..|gs| - 1]) + Numbered(gs[|gs| - 1])
  }

  function WritersOf<Op>(gs: seq<Group<Op>>): seq<Writer<Op>> {
    if gs == [] then [] else WritersOf(gs[..|gs| - 1]) + gs[|gs| - 1].writers
  }

  function LogOf<Op>(gs: seq<Group<Op>>): seq<Record<Op>> {
    if gs == [] then [] else
      var g := gs[|gs| - 1];
      LogOf(gs[..|gs| - 1]) + if g.outcome.LoggedOnly? || g.outcome.Applied? then [Record(g.first, OpsOf(g.writers))] else []
  }

  function MemOf<Op>(gs: seq<Group<Op>>): seq<(nat, Op)> {
    if gs == [] then [] else
      var g := gs[|gs| - 1];
      MemOf(gs[..|gs| - 1]) + if g.outcome.Applied? then Numbering(g.first, OpsOf(g.writers)) else []
  }

  predicate Succeeded(o: Outcome) {
    o.Applied? || (o.Unnumbered? && o.ok)
  }

  function AnswersOf<Op>(gs: seq<Group<Op>>): seq<(nat, bool)> {
    if gs == [] then [] else
      AnswersOf(gs[..|gs| - 1]) + AnswerAll(gs[|gs| - 1].writers, Succeeded(gs[|gs| - 1].outcome))
  }

  // What the leader of the moment has written already.
  function PartOfLog<Op>(s: State<Op>): seq<Record<Op>> {
    if s.phase.Inserting? && s.phase.logged && s.phase.count <= |s.queue|
    then [Record(s.lastSequence + 1, OpsOf(Leaders(s, s.phase.count)))] else []
  }

  function PartOfMem<Op>(s: State<Op>): seq<(nat, Op)> {
    if s.phase.Inserting? && s.phase.count <= |s.queue| && s.phase.inserted <= |OpsOf(Leaders(s, s.phase.count))|
    then Numbering(s.lastSequence + 1, OpsOf(Leaders(s, s.phase.count)))[..s.phase.inserted] else []
  }

  ghost predicate PhaseFits<Op>(s: State<Op>) {
    match s.phase
    case Idle => true
    case Leading(count) => count <= |s.queue|
    case Inserting(count, logged, ok, inserted) =>
      && count <= |s.queue| && inserted <= |OpsOf(Leaders(s, count))|
      && (ok ==> logged) && (!ok ==> inserted == 0)
  }

  // The groups are numbered one after the other without gaps.
  ghost predicate Contiguous<Op>(gs: seq<Group<Op>>) {
    forall i | 0 <= i < |gs| :: gs[i].first == 1 + Numbers(gs[..i])
  }

  ghost predicate Accounted<Op>(s: State<Op>) {
    && PhaseFits(s) && Contiguous(s.groups)
    && s.lastSequence == Numbers(s.groups)
    && s.arrived == WritersOf(s.groups) + s.queue
    && s.log == LogOf(s.groups) + PartOfLog(s)
    && s.mem == MemOf(s.groups) + PartOfMem(s)
    && s.answers == AnswersOf(s.groups)
  }

  lemma OneMoreGroup<Op>(gs: seq<Group<Op>>, g: Group<Op>)
    ensures Numbers(gs + [g]) == Numbers(gs) + Numbered(g)
    ensures WritersOf(gs + [g]) == WritersOf(gs) + g.writers
    ensures LogOf(gs + [g])
         == LogOf(gs) + if g.outcome.LoggedOnly? || g.outcome.Applied? then [Record(g.first, OpsOf(g.writers))] else []
    ensures MemOf(gs + [g]) == MemOf(gs) + if g.outcome.Applied? then Numbering(g.first, OpsOf(g.writers)) else []
    ensures AnswersOf(gs + [g]) == AnswersOf(gs) + AnswerAll(g.writers, Succeeded(g.outcome))
    ensures Contiguous(gs) && g.first == 1 + Numbers(gs) ==> Contiguous(gs + [g])
  {
    assert (gs + [g])[..|gs|] == gs;
    if Contiguous(gs) && g.first == 1 + Numbers(gs) {
      forall i | 0 <= i < |gs| + 1 ensures (gs + [g])[i].first == 1 + Numbers((gs + [g])[..i]) {
        assert (gs + [g])[..i] == gs[..i];
      }
    }
  }

  lemma LeadersStay<Op>(queue: seq<Writer<Op>>, w: Writer<Op>, count: nat)
    requires count <= |queue|
    ensures (queue + [w])[..count] == queue[..count]
  {
  }

  lemma EnqueueKeeps<Op>(s: State<Op>, w: Writer<Op>, s': State<Op>)
    requires Accounted(s) && Next(s, Enqueue(w), s')
    ensures Accounted(s')
  {
    hide Numbers, WritersOf, LogOf, MemOf, AnswersOf, OpsOf, Numbering, Contiguous;
    if !s.phase.Idle? {
      LeadersStay(s.queue, w, s.phase.count);
    }
  }

  lemma RefuseKeeps<Op>(s: State<Op>, ok: bool, s': State<Op>)
    requires Accounted(s) && Next(s, Refuse(ok), s')
    ensures Accounted(s')
  {
    hide Numbers, WritersOf, LogOf, MemOf, AnswersOf, OpsOf, Numbering, Contiguous;
    OneMoreGroup(s.groups, Group(s.lastSequence + 1, [s.queue[0]], Unnumbered(ok)));
    assert s.queue == [s.queue[0]] + s.queue[1..];
    assert AnswerAll([s.queue[0]], ok) == [(s.queue[0].id, ok)];
  }

  lemma LogKeeps<Op>(s: State<Op>, logged: bool, ok: bool, s': State<Op>)
    requires Accounted(s) && Next(s, WriteLog(logged, ok), s')
    ensures Accounted(s')
  {
    hide Numbers, WritersOf, LogOf, MemOf, AnswersOf, OpsOf, Contiguous;
  }

  lemma InsertKeeps<Op>(s: State<Op>, s': State<Op>)
    requires Accounted(s) && Next(s, InsertOne, s')
    ensures Accounted(s')
  {
    hide Numbers, WritersOf, LogOf, MemOf, AnswersOf, OpsOf, Contiguous;
    var stamped, n := Numbering(s.lastSequence + 1, OpsOf(Leaders(s, s.phase.count))), s.phase.inserted;
    assert stamped[..n + 1] == stamped[..n] + [stamped[n]];
  }

  lemma Regroup<T>(a: seq<T>, b: seq<T>, c: seq<T>)
    ensures a + (b + c) == a + b + c
  {
  }

  lemma PublishKeeps<Op>(s: State<Op>, s': State<Op>)
    requires Accounted(s) && Next(s, Publish, s')
    ensures Accounted(s')
  {
    hide Numbers, WritersOf, LogOf, MemOf, AnswersOf, OpsOf, Numbering, Contiguous;
    var ws, rest := Leaders(s, s.phase.count), s.queue[s.phase.count..];
    OneMoreGroup(s.groups, Group(s.lastSequence + 1, ws, OutcomeOf(s.phase.logged, s.phase.ok)));
    assert s.queue == ws + rest;
    Regroup(WritersOf(s.groups), ws, rest);
    var stamped := Numbering(s.lastSequence + 1, OpsOf(ws));
    assert stamped[..|stamped|] == stamped && stamped[..0] == [];
  }

  lemma StepKeeps<Op>(s: State<Op>, a: Action<Op>, s': State<Op>)
    requires Accounted(s) && Next(s, a, s')
    ensures Accounted(s')
  {
    match a
    case Enqueue(w) => EnqueueKeeps(s, w, s');
    case Refuse(ok) => RefuseKeeps(s, ok, s');
    case Lead(_) =>
      hide Numbers, WritersOf, LogOf, MemOf, AnswersOf, OpsOf, Contiguous;
    case WriteLog(logged, ok) => LogKeeps(s, logged, ok, s');
    case InsertOne => InsertKeeps(s, s');
    case Publish => PublishKeeps(s, s');
  }

  ghost predicate IsRun<Op>(states: seq<State<Op>>, actions: seq<Action<Op>>) {
    && |states| == |actions| + 1 && states[0] == Initial()
    && forall i | 0 <= i < |actions| :: Next(states[i], actions[i], states[i + 1])
  }

  // In every reachable state the log, the memtable, the answers and the last sequence number are those
  // of the groups finished so far, and of the one being written.
  lemma {:induction false} RunsAreAccounted<Op>(states: seq<State<Op>>, actions: seq<Action<Op>>, n: nat)
    requires IsRun(states, actions) && n < |states|
    ensures Accounted(states[n])
  {
    hide Next;
    if n > 0 {
      RunsAreAccounted(states, actions, n - 1);
      StepKeeps(states[n - 1], actions[n - 1], states[n]);
    }
  }

  // ----- what that means for a batch -----

  // The sequence numbers of a group begin after those of all groups before it.
  lemma {:induction false} NumbersGrow<Op>(gs: seq<Group<Op>>, i: nat)
    requires i <= |gs|
    ensures Numbers(gs[..i]) <= Numbers(gs)
    ensures i < |gs| ==> Numbers(gs[..i]) + Numbered(gs[i]) <= Numbers(gs)
  {
    if i == |gs| {
      assert gs[..i] == gs;
    } else {
      NumbersGrow(gs[..|gs| - 1], i);
      assert gs[..|gs| - 1][..i] == gs[..i];
    }
  }

  // The memtable holds ascending numbers, so none twice, and none beyond the finished groups.
  lemma {:induction false} MemAscends<Op>(gs: seq<Group<Op>>, i: nat, j: nat)
    requires Contiguous(gs) && i < |MemOf(gs)| && j < |MemOf(gs)|
    ensures i < j ==> MemOf(gs)[i].0 < MemOf(gs)[j].0
    ensures 1 <= MemOf(gs)[i].0 <= Numbers(gs)
  {
    if gs != [] {
      var before, g := gs[..|gs| - 1], gs[|gs| - 1];
      assert forall k | 0 <= k < |before| :: before[..k] == gs[..k];
      var n := |MemOf(before)|;
      if i < n {
        MemAscends(before, i, if j < n then j else i);
      }
    }
  }

  lemma NumberingHolds<Op>(first: nat, ops: seq<Op>, skip: nat, batch: seq<Op>)
    requires Holds(ops, skip, batch)
    ensures Holds(Numbering(first, ops), skip, Numbering(first + skip, batch))
  {
  }

  // The operations of one writer of a group stay together.
  lemma {:induction false} BatchInGroup<Op>(ws: seq<Writer<Op>>, w: nat)
    requires w < |ws|
    ensures Holds(OpsOf(ws), |OpsOf(ws[..w])|, BatchOf(ws[w]))
  {
    var n := |ws| - 1;
    if w < n {
      BatchInGroup(ws[..n], w);
      assert ws[..n][..w] == ws[..w];
    }
  }

  lemma MemOfOneMore<Op>(gs: seq<Group<Op>>, g: Group<Op>)
    ensures MemOf(gs + [g]) == MemOf(gs) + if g.outcome.Applied? then Numbering(g.first, OpsOf(g.writers)) else []
  {
    hide Numbering, OpsOf;
    assert (gs + [g])[..|gs|] == gs;
  }

  lemma {:induction false} GroupInMem<Op>(gs: seq<Group<Op>>, i: nat)
    requires i < |gs| && gs[i].outcome.Applied?
    ensures Holds(MemOf(gs), |MemOf(gs[..i])|, Numbering(gs[i].first, OpsOf(gs[i].writers)))
    decreases |gs|
  {
    hide Numbering, OpsOf, MemOf, Holds;
    var n := |gs| - 1;
    var rest, g := gs[..n], gs[n];
    assert gs == rest + [g];
    MemOfOneMore(rest, g);
    if i < n {
      assert rest[..i] == gs[..i];
      GroupInMem(rest, i);
      HoldsLonger(MemOf(rest), if g.outcome.Applied? then Numbering(g.first, OpsOf(g.writers)) else [],
                  |MemOf(gs[..i])|, Numbering(gs[i].first, OpsOf(gs[i].writers)));
    } else {
      EndHolds(MemOf(rest), Numbering(g.first, OpsOf(g.writers)));
    }
  }

  // A finished writer whose group was applied has its whole batch in the memtable, in order, with
  // consecutive sequence numbers that are published.
  lemma BatchIsApplied<Op>(s: State<Op>, i: nat, w: nat) returns (at: nat)
    requires Accounted(s) && i < |s.groups| && w < |s.groups[i].writers| && s.groups[i].outcome.Applied?
    ensures var g := s.groups[i];
      var first, batch := g.first + |OpsOf(g.writers[..w])|, BatchOf(g.writers[w]);
      first + |batch| <= s.lastSequence + 1 && Holds(s.mem, at, Numbering(first, batch))
  {
    hide Numbers, WritersOf, LogOf, AnswersOf, MemOf, OpsOf;
    var g := s.groups[i];
    var skip, batch := |OpsOf(g.writers[..w])|, BatchOf(g.writers[w]);
    BatchInGroup(g.writers, w);
    GroupInMem(s.groups, i);
    NumbersGrow(s.groups, i);
    at := |MemOf(s.groups[..i])|;
    NumberingHolds(g.first, OpsOf(g.writers), skip, batch);
    HoldsInside(MemOf(s.groups), at, Numbering(g.first, OpsOf(g.writers)), skip, Numbering(g.first + skip, batch));
    HoldsLonger(MemOf(s.groups), PartOfMem(s), at + skip, Numbering(g.first + skip, batch));
    at := at + skip;
  }

  // What a reader at the published sequence number sees of the memtable: exactly the finished groups,
  // never a part of a batch.
  lemma PublishedIsWhole<Op>(s: State<Op>, i: nat)
    requires Accounted(s) && i < |s.mem|
    ensures s.mem[i].0 <= s.lastSequence <==> i < |MemOf(s.groups)|
  {
    hide Numbers, WritersOf, LogOf, AnswersOf, MemOf, OpsOf;
    if i < |MemOf(s.groups)| {
      MemAscends(s.groups, i, i);
    }
  }

  // Every writer is answered in order of arrival, with the status of its group.
  lemma {:induction false} AnsweredInOrder<Op>(gs: seq<Group<Op>>, i: nat)
    ensures |AnswersOf(gs)| == |WritersOf(gs)|
    ensures i < |AnswersOf(gs)| ==> AnswersOf(gs)[i].0 == WritersOf(gs)[i].id
  {
    if gs != [] {
      AnsweredInOrder(gs[..|gs| - 1], i);
    }
  }

  // ----- who goes with whom -----

  // Nobody who asks for a sync goes with a leader that does not, and a leader with company writes no more than 1 MB,
  // and no more than 128 KB on top of its own batch.
  ghost predicate WellLed<Op>(ws: seq<Writer<Op>>) {
    && ws != [] && ws[0].batch.Some?
    && (forall i | 0 <= i < |ws| && ws[i].sync :: ws[0].sync)
    && ((exists i :: 0 < i < |ws| && ws[i].batch.Some?) ==>
          BytesOf(ws) <= 1024 * 1024 && (ws[0].bytes <= 128 * 1024 ==> BytesOf(ws) <= ws[0].bytes + 128 * 1024))
  }

  ghost predicate AllLed<Op>(s: State<Op>) {
    && (forall i | 0 <= i < |s.groups| && !s.groups[i].outcome.Unnumbered? :: WellLed(s.groups[i].writers))
    && (!s.phase.Idle? ==> s.phase.count <= |s.queue| && WellLed(s.queue[..s.phase.count]))
  }

  lemma GroupIsWellLed<Op>(queue: seq<Writer<Op>>, k: nat)
    requires IsGroup(queue, k)
    ensures WellLed(queue[..k])
  {
    hide BytesOf;
    var ws := queue[..k];
    assert forall i | 0 <= i < k :: ws[i] == queue[i];
    if other: nat :| 0 < other < k && ws[other].batch.Some? {
      LimitsOfGroup(queue, k, other);
      SmallTotal(queue, k, other);
    }
  }

  lemma SmallTotal<Op>(queue: seq<Writer<Op>>, k: nat, other: nat)
    requires IsGroup(queue, k) && 0 < other < k && queue[other].batch.Some?
    ensures BytesOf(queue[..k]) <= 1024 * 1024
  {
    hide BytesOf;
    LimitsOfGroup(queue, k, other);
  }

  lemma StepIsLed<Op>(s: State<Op>, a: Action<Op>, s': State<Op>)
    requires AllLed(s) && Next(s, a, s')
    ensures AllLed(s')
  {
    hide WellLed, OpsOf, AnswerAll, IsGroup;
    match a
    case Enqueue(w) =>
      if !s.phase.Idle? {
        LeadersStay(s.queue, w, s.phase.count);
      }
    case Lead(count) =>
      GroupIsWellLed(s.queue, count);
      GroupIsFront(s.queue, count);
    case _ =>
  }

  lemma GroupIsFront<Op>(queue: seq<Writer<Op>>, k: nat)
    requires IsGroup(queue, k)
    ensures k <= |queue|
  {
  }

  // In every run, no writer that asked for a sync is ever in a group whose leader did not, and all groups keep to
  // their size.
  lemma {:induction false} RunsAreLed<Op>(states: seq<State<Op>>, actions: seq<Action<Op>>, n: nat)
    requires IsRun(states, actions) && n < |states|
    ensures AllLed(states[n])
  {
    hide Next, AllLed;
    if n == 0 {
      NobodyLeads<Op>();
    } else {
      RunsAreLed(states, actions, n - 1);
      StepIsLed(states[n - 1], actions[n - 1], states[n]);
    }
  }

  lemma NobodyLeads<Op>()
    ensures AllLed<Op>(Initial())
  {
  }

  // ----- every writer is answered -----

  // How far a state is from having no writer left.
  function StageOf(p: Phase): nat {
    match p
    case Idle => 2
    case Leading(_) => 1
    case Inserting(_, _, _, _) => 0
  }

  function NotInserted<Op>(s: State<Op>): nat {
    if s.phase.Inserting? && s.phase.count <= |s.queue| && s.phase.inserted <= |OpsOf(Leaders(s, s.phase.count))|
    then |OpsOf(Leaders(s, s.phase.count))| - s.phase.inserted else 0
  }

  ghost predicate Nearer<Op>(s': State<Op>, s: State<Op>) {
    || |s'.queue| < |s.queue|
    || (|s'.queue| == |s.queue| && StageOf(s'.phase) < StageOf(s.phase))
    || (|s'.queue| == |s.queue| && StageOf(s'.phase) == StageOf(s.phase) && NotInserted(s') < NotInserted(s))
  }

  // As long as writers are waiting, a step is possible that brings their end nearer, whoever else queues up.
  lemma SomeoneGoesOn<Op>(s: State<Op>) returns (a: Action<Op>, s': State<Op>)
    requires Accounted(s) && AllLed(s) && s.queue != []
    ensures !a.Enqueue? && Next(s, a, s') && Nearer(s', s)
  {
    hide Contiguous, Numbers, WritersOf, LogOf, MemOf, AnswersOf, OpsOf, Numbering, WellLed, BytesOf, AnswerAll;
    match s.phase
    case Idle =>
      if s.queue[0].batch.Some? {
        a := Lead(1);
        s' := s.(phase := Leading(1));
        assert s.queue[..1] == [s.queue[0]];
        OneIsGroup(s.queue);
      } else {
        a := Refuse(true);
        s' := s.(queue := s.queue[1..], answers := s.answers + [(s.queue[0].id, true)],
                 groups := s.groups + [Group(s.lastSequence + 1, [s.queue[0]], Unnumbered(true))]);
      }
    case Leading(count) =>
      a := WriteLog(true, true);
      s' := s.(phase := Inserting(count, true, true, 0), log := s.log + [Record(s.lastSequence + 1, OpsOf(Leaders(s, count)))]);
    case Inserting(count, logged, ok, inserted) =>
      var ops := OpsOf(Leaders(s, count));
      if ok && inserted < |ops| {
        a := InsertOne;
        s' := s.(phase := s.phase.(inserted := inserted + 1), mem := s.mem + [(s.lastSequence + 1 + inserted, ops[inserted])]);
      } else {
        a := Publish;
        LeadersAreSome(s);
        s' := s.(phase := Idle, lastSequence := s.lastSequence + |ops|, queue := s.queue[count..],
                 answers := s.answers + AnswerAll(Leaders(s, count), ok),
                 groups := s.groups + [Group(s.lastSequence + 1, Leaders(s, count), OutcomeOf(logged, ok))]);
      }
  }

  lemma OneIsGroup<Op>(queue: seq<Writer<Op>>)
    requires queue != [] && queue[0].batch.Some?
    ensures IsGroup(queue, 1)
  {
  }

  lemma LeadersAreSome<Op>(s: State<Op>)
    requires AllLed(s) && !s.phase.Idle?
    ensures 1 <= s.phase.count <= |s.queue|
  {
    hide BytesOf;
    assert s.phase.count == |s.queue[..s.phase.count]|;
  }

  // Every step but the arrival of a writer brings the end nearer: so they cannot go on for ever.
  lemma StepsComeToAnEnd<Op>(s: State<Op>, a: Action<Op>, s': State<Op>)
    requires Accounted(s) && AllLed(s) && !a.Enqueue? && Next(s, a, s')
    ensures Nearer(s', s)
  {
    hide Contiguous, Numbers, WritersOf, LogOf, MemOf, AnswersOf, OpsOf, Numbering, WellLed, BytesOf, AnswerAll, IsGroup;
    if a.Publish? {
      LeadersAreSome(s);
    }
  }
}

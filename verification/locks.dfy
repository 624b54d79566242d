// Goroutines over the server's locks: sync.RWMutex prefers writers, so a read lock waits behind a waiting writer.

module Locks {
  import opened Base

  /** ms.mu, ms.frameTimeMu, the event broker's lock, and the stores' locks, never held across another. */
  datatype Lock = Mesh | FrameTime | Broker | Store

  /** The order in which locks nest. */
  function Rank(l: Lock): nat
  {
    if l.Mesh? then 0 else 1
  }

  datatype Op = RLock(lock: Lock) | RUnlock(lock: Lock) | WLock(lock: Lock) | WUnlock(lock: Lock)

  // ---- The calls ----

  datatype Call =
    | SendMessage(running: bool, secondary: bool)
    | ActiveOutboundComm(secondary: bool)
    | PublishHealthEvent(firstSeen: bool)
    | CheckOfflineNodes(offline: nat)
    | Subscribe
    | Unsubscribe
    | Publish

  const PUBLISH: seq<Op> := [RLock(Broker), RUnlock(Broker)]
  const READ_FRAME_TIME: seq<Op> := [WLock(FrameTime), WUnlock(FrameTime)]

  function Repeat(ops: seq<Op>, n: nat): seq<Op>
  {
    if n == 0 then [] else ops + Repeat(ops, n - 1)
  }

  /** Some events published while ms.mu is held for writing. */
  function PublishUnderMesh(events: nat): seq<Op>
  {
    [WLock(Mesh)] + (Repeat(PUBLISH, events) + [WUnlock(Mesh)])
  }

  /** The lock operations of a call, in program order. */
  function Program(c: Call): seq<Op>
  {
    match c
    case SendMessage(running, secondary) =>
      [RLock(Mesh)] + (if running && secondary then READ_FRAME_TIME else []) + [RUnlock(Mesh)]
    case ActiveOutboundComm(secondary) =>
      [RLock(Mesh), RUnlock(Mesh)] + (if secondary then READ_FRAME_TIME else [])
    case PublishHealthEvent(firstSeen) => PUBLISH + PublishUnderMesh(if firstSeen then 1 else 0)
    case CheckOfflineNodes(offline) => [RLock(Store), RUnlock(Store)] + PublishUnderMesh(offline)
    case Subscribe => [WLock(Broker), WUnlock(Broker)]
    case Unsubscribe => [WLock(Broker), WUnlock(Broker)]
    case Publish => PUBLISH
  }

  /** A goroutine making these calls one after the other. */
  function Programs(cs: seq<Call>): seq<Op>
  {
    if cs == [] then [] else Program(cs[0]) + Programs(cs[1..])
  }

  // ---- Goroutines ----

  /** What is left to do, what is held, and whether the writer at the head of `rest` has announced itself. */
  datatype Goroutine = Goroutine(rest: seq<Op>, shared: multiset<Lock>, exclusive: multiset<Lock>, waiting: bool)

  function Start(cs: seq<Call>): Goroutine
  {
    Goroutine(Programs(cs), multiset{}, multiset{}, false)
  }

  predicate Finished(g: Goroutine)
  {
    g.rest == []
  }

  /** An announced writer of `l`, not yet inside. */
  predicate WaitsFor(g: Goroutine, l: Lock)
  {
    g.waiting && g.rest != [] && g.rest[0] == WLock(l)
  }

  predicate CanStep(gs: seq<Goroutine>, i: nat)
    requires i < |gs|
  {
    && !Finished(gs[i])
    && match gs[i].rest[0]
       case RLock(l) => forall j :: 0 <= j < |gs| ==> l !in gs[j].exclusive && !WaitsFor(gs[j], l)
       case WLock(l) =>
         if gs[i].waiting then forall j :: 0 <= j < |gs| ==> l !in gs[j].shared
         else forall j :: 0 <= j < |gs| ==> l !in gs[j].exclusive && !WaitsFor(gs[j], l)
       case _ => true
  }

  function Advance(g: Goroutine): Goroutine
    requires !Finished(g)
  {
    match g.rest[0]
    case RLock(l) => g.(rest := g.rest[1..], shared := g.shared + multiset{l})
    case RUnlock(l) => g.(rest := g.rest[1..], shared := g.shared - multiset{l})
    case WLock(l) =>
      if g.waiting then g.(rest := g.rest[1..], exclusive := g.exclusive + multiset{l}, waiting := false)
      else g.(waiting := true)
    case WUnlock(l) => g.(rest := g.rest[1..], exclusive := g.exclusive - multiset{l})
  }

  function Step(gs: seq<Goroutine>, i: nat): (gs': seq<Goroutine>)
    requires i < |gs| && CanStep(gs, i)
    ensures |gs'| == |gs|
  {
    gs[i := Advance(gs[i])]
  }

  // ---- The discipline ----

  predicate Below(held: multiset<Lock>, l: Lock)
  {
    forall h :: h in held ==> Rank(h) < Rank(l)
  }

  /** Locks are taken in rank order, released in the mode they were taken, and all released at the end. */
  predicate Disciplined(rest: seq<Op>, shared: multiset<Lock>, exclusive: multiset<Lock>)
    decreases rest
  {
    if rest == [] then shared == multiset{} && exclusive == multiset{}
    else
      match rest[0]
      case RLock(l) =>
        Below(shared, l) && Below(exclusive, l) && Disciplined(rest[1..], shared + multiset{l}, exclusive)
      case RUnlock(l) => l in shared && Disciplined(rest[1..], shared - multiset{l}, exclusive)
      case WLock(l) =>
        Below(shared, l) && Below(exclusive, l) && Disciplined(rest[1..], shared, exclusive + multiset{l})
      case WUnlock(l) => l in exclusive && Disciplined(rest[1..], shared, exclusive - multiset{l})
  }

  predicate Sound(g: Goroutine)
  {
    Disciplined(g.rest, g.shared, g.exclusive) && (g.waiting ==> g.rest != [] && g.rest[0].WLock?)
  }

  predicate AllSound(gs: seq<Goroutine>)
  {
    forall i :: 0 <= i < |gs| ==> Sound(gs[i])
  }

  lemma {:induction false} DisciplinedThen(a: seq<Op>, b: seq<Op>, shared: multiset<Lock>, exclusive: multiset<Lock>)
    requires Disciplined(a, shared, exclusive) && Disciplined(b, multiset{}, multiset{})
    ensures Disciplined(a + b, shared, exclusive)
    decreases a
  {
    if a == [] {
      assert a + b == b;
    } else {
      assert (a + b)[1..] == a[1..] + b;
      match a[0]
      case RLock(l) => DisciplinedThen(a[1..], b, shared + multiset{l}, exclusive);
      case RUnlock(l) => DisciplinedThen(a[1..], b, shared - multiset{l}, exclusive);
      case WLock(l) => DisciplinedThen(a[1..], b, shared, exclusive + multiset{l});
      case WUnlock(l) => DisciplinedThen(a[1..], b, shared, exclusive - multiset{l});
    }
  }

  /** Taking and releasing a broker read lock in front of a disciplined rest. */
  lemma PublishFirst(rest: seq<Op>, exclusive: multiset<Lock>)
    requires Disciplined(rest, multiset{}, exclusive) && Below(exclusive, Broker)
    ensures Disciplined(PUBLISH + rest, multiset{}, exclusive)
  {
    var ops := PUBLISH + rest;
    assert ops[1..] == [RUnlock(Broker)] + rest;
    assert ops[1..][1..] == rest;
    assert multiset{} + multiset{Broker} - multiset{Broker} == multiset{};
  }

  lemma ReleaseLast(l: Lock)
    ensures Disciplined([WUnlock(l)], multiset{}, multiset{l}) && Disciplined([RUnlock(l)], multiset{l}, multiset{})
  {
    assert [WUnlock(l)][1..] == [] && [RUnlock(l)][1..] == [];
    assert multiset{l} - multiset{l} == multiset{};
  }

  lemma {:induction false} RepeatedPublishes(n: nat)
    ensures Disciplined(Repeat(PUBLISH, n) + [WUnlock(Mesh)], multiset{}, multiset{Mesh})
  {
    hide Disciplined;
    var last := [WUnlock(Mesh)];
    if n == 0 {
      assert Repeat(PUBLISH, 0) + last == last;
      ReleaseLast(Mesh);
    } else {
      RepeatedPublishes(n - 1);
      PublishFirst(Repeat(PUBLISH, n - 1) + last, multiset{Mesh});
      ConcatAssociative(PUBLISH, Repeat(PUBLISH, n - 1), last);
    }
  }

  lemma SectionDisciplined(n: nat)
    ensures Disciplined(PublishUnderMesh(n), multiset{}, multiset{})
  {
    hide Repeat;
    RepeatedPublishes(n);
    var tail := Repeat(PUBLISH, n) + [WUnlock(Mesh)];
    assert PublishUnderMesh(n)[1..] == tail;
    assert multiset{} + multiset{Mesh} == multiset{Mesh};
  }

  lemma PairDisciplined(l: Lock)
    ensures Disciplined([RLock(l), RUnlock(l)], multiset{}, multiset{})
    ensures Disciplined([WLock(l), WUnlock(l)], multiset{}, multiset{})
  {
    assert [RLock(l), RUnlock(l)][1..] == [RUnlock(l)] && [WLock(l), WUnlock(l)][1..] == [WUnlock(l)];
    assert multiset{} + multiset{l} - multiset{l} == multiset{};
  }

  lemma SendDisciplined()
    ensures Disciplined([RLock(Mesh)] + READ_FRAME_TIME + [RUnlock(Mesh)], multiset{}, multiset{})
  {
    var ops := [RLock(Mesh)] + READ_FRAME_TIME + [RUnlock(Mesh)];
    ReleaseLast(Mesh);
    assert ops[1..][1..][1..] == [RUnlock(Mesh)];
    assert multiset{} + multiset{FrameTime} - multiset{FrameTime} == multiset{};
    assert Disciplined(ops[1..][1..], multiset{Mesh}, multiset{FrameTime});
    assert multiset{} + multiset{FrameTime} == multiset{FrameTime};
    assert Disciplined(ops[1..], multiset{Mesh}, multiset{});
    assert multiset{} + multiset{Mesh} == multiset{Mesh};
  }

  lemma CallDisciplined(c: Call)
    ensures Disciplined(Program(c), multiset{}, multiset{})
  {
    hide Disciplined, PublishUnderMesh;
    PairDisciplined(Mesh);
    PairDisciplined(Broker);
    PairDisciplined(Store);
    PairDisciplined(FrameTime);
    match c
    case SendMessage(running, secondary) =>
      SendDisciplined();
      assert [RLock(Mesh)] + [] + [RUnlock(Mesh)] == [RLock(Mesh), RUnlock(Mesh)];
    case ActiveOutboundComm(secondary) =>
      DisciplinedThen([RLock(Mesh), RUnlock(Mesh)], READ_FRAME_TIME, multiset{}, multiset{});
      assert [RLock(Mesh), RUnlock(Mesh)] + [] == [RLock(Mesh), RUnlock(Mesh)];
    case PublishHealthEvent(first) =>
      SectionDisciplined(if first then 1 else 0);
      DisciplinedThen(PUBLISH, PublishUnderMesh(if first then 1 else 0), multiset{}, multiset{});
    case CheckOfflineNodes(n) =>
      SectionDisciplined(n);
      DisciplinedThen([RLock(Store), RUnlock(Store)], PublishUnderMesh(n), multiset{}, multiset{});
    case _ =>
  }

  lemma {:induction false} ProgramsDisciplined(cs: seq<Call>)
    ensures Disciplined(Programs(cs), multiset{}, multiset{})
  {
    hide Program, Disciplined;
    if cs == [] {
      NothingDisciplined();
    } else {
      CallDisciplined(cs[0]);
      ProgramsDisciplined(cs[1..]);
      DisciplinedThen(Program(cs[0]), Programs(cs[1..]), multiset{}, multiset{});
    }
  }

  lemma NothingDisciplined()
    ensures Disciplined([], multiset{}, multiset{})
  {
  }

  lemma StepSound(gs: seq<Goroutine>, i: nat)
    requires i < |gs| && CanStep(gs, i) && AllSound(gs)
    ensures AllSound(Step(gs, i))
  {
    assert Sound(gs[i]);
  }

  // ---- Progress ----

  /** A goroutine holding `l` is not finished, and the next lock it takes ranks above `l`. */
  lemma HolderContinues(g: Goroutine, l: Lock)
    requires Sound(g) && (l in g.shared || l in g.exclusive)
    ensures !Finished(g)
    ensures match g.rest[0]
            case RLock(n) => Rank(n) > Rank(l)
            case WLock(n) => Rank(n) > Rank(l)
            case _ => true
  {
  }

  /** The rank of the lock a goroutine is about to take. */
  function Wanted(g: Goroutine): nat
    requires !Finished(g)
  {
    Rank(g.rest[0].lock)
  }

  /** What keeps a goroutine from stepping is another one, unfinished, that can step or is stuck at a higher lock. */
  lemma Blocker(gs: seq<Goroutine>, i: nat) returns (j: nat)
    requires i < |gs| && AllSound(gs) && !Finished(gs[i]) && !CanStep(gs, i)
    ensures j < |gs| && !Finished(gs[j])
    ensures CanStep(gs, j) || Wanted(gs[j]) > Wanted(gs[i])
  {
    hide Disciplined;
    assert Sound(gs[i]);
    var l := gs[i].rest[0].lock;
    if k :| 0 <= k < |gs| && (l in gs[k].exclusive || l in gs[k].shared) {
      j := k;
      HolderContinues(gs[k], l);
    } else {
      // Nobody holds the lock, so a writer has announced itself, and it may go in.
      var k :| 0 <= k < |gs| && WaitsFor(gs[k], l);
      j := k;
    }
  }

  /** Some unfinished goroutine can always step. */
  lemma {:induction false} Progress(gs: seq<Goroutine>, i: nat) returns (j: nat)
    requires i < |gs| && AllSound(gs) && !Finished(gs[i])
    ensures j < |gs| && CanStep(gs, j)
    decreases 1 - Wanted(gs[i])
  {
    hide Disciplined, CanStep;
    if CanStep(gs, i) {
      return i;
    }
    j := Blocker(gs, i);
    if !CanStep(gs, j) {
      j := Progress(gs, j);
    }
  }

  // ---- Whole runs ----

  ghost predicate CanRun(gs: seq<Goroutine>, schedule: seq<nat>)
    decreases schedule
  {
    schedule == [] ||
    (schedule[0] < |gs| && CanStep(gs, schedule[0]) && CanRun(Step(gs, schedule[0]), schedule[1..]))
  }

  function Run(gs: seq<Goroutine>, schedule: seq<nat>): seq<Goroutine>
    requires CanRun(gs, schedule)
    decreases schedule
  {
    if schedule == [] then gs else Run(Step(gs, schedule[0]), schedule[1..])
  }

  lemma {:induction false} RunSound(gs: seq<Goroutine>, schedule: seq<nat>)
    requires AllSound(gs) && CanRun(gs, schedule)
    ensures AllSound(Run(gs, schedule)) && |Run(gs, schedule)| == |gs|
    decreases schedule
  {
    hide AllSound, CanStep, Step;
    if schedule == [] {
    } else {
      StepSound(gs, schedule[0]);
      RunSound(Step(gs, schedule[0]), schedule[1..]);
    }
  }

  /** Any number of goroutines, each making any calls in turn. */
  ghost predicate Initial(gs: seq<Goroutine>)
  {
    forall i :: 0 <= i < |gs| ==> exists cs :: gs[i] == Start(cs)
  }

  lemma InitialSound(gs: seq<Goroutine>)
    requires Initial(gs)
    ensures AllSound(gs)
  {
    hide Disciplined, Programs;
    forall i | 0 <= i < |gs|
      ensures Sound(gs[i])
    {
      var cs :| gs[i] == Start(cs);
      ProgramsDisciplined(cs);
    }
  }

  /** Deadlock freedom: after any schedule, while a goroutine is unfinished one of them can step. */
  lemma DeadlockFree(gs: seq<Goroutine>, schedule: seq<nat>, i: nat)
    requires Initial(gs) && CanRun(gs, schedule)
    requires i < |Run(gs, schedule)| && !Finished(Run(gs, schedule)[i])
    ensures exists j :: 0 <= j < |Run(gs, schedule)| && CanStep(Run(gs, schedule), j)
  {
    hide Initial, AllSound, CanStep, CanRun, Run;
    InitialSound(gs);
    RunSound(gs, schedule);
    var j := Progress(Run(gs, schedule), i);
  }

  /** Two steps for each lock taken for writing, one for every other operation. */
  function Work(g: Goroutine): nat
  {
    2 * |g.rest| + (if g.waiting then 0 else 1)
  }

  function TotalWork(gs: seq<Goroutine>): nat
  {
    if gs == [] then 0 else Work(gs[0]) + TotalWork(gs[1..])
  }

  lemma {:induction false} WorkUpdate(gs: seq<Goroutine>, i: nat, g: Goroutine)
    requires i < |gs|
    ensures TotalWork(gs[i := g]) == TotalWork(gs) - Work(gs[i]) + Work(g)
  {
    hide Work;
    if i == 0 {
      assert gs[i := g][1..] == gs[1..];
    } else {
      assert gs[i := g][1..] == gs[1..][i - 1 := g];
      WorkUpdate(gs[1..], i - 1, g);
    }
  }

  lemma AdvanceWorks(g: Goroutine)
    requires !Finished(g) && Sound(g)
    ensures Work(Advance(g)) < Work(g)
  {
  }

  lemma StepWorks(gs: seq<Goroutine>, i: nat)
    requires i < |gs| && CanStep(gs, i) && AllSound(gs)
    ensures TotalWork(Step(gs, i)) < TotalWork(gs)
  {
    hide Disciplined, Work, TotalWork, Advance;
    assert Sound(gs[i]);
    AdvanceWorks(gs[i]);
    WorkUpdate(gs, i, Advance(gs[i]));
  }

  /** No schedule goes on for ever, so with DeadlockFree every goroutine finishes. */
  lemma {:induction false} SchedulesEnd(gs: seq<Goroutine>, schedule: seq<nat>)
    requires AllSound(gs) && CanRun(gs, schedule)
    ensures |schedule| <= TotalWork(gs)
    decreases schedule
  {
    hide AllSound, CanStep, Step, TotalWork;
    if schedule == [] {
    } else {
      StepSound(gs, schedule[0]);
      StepWorks(gs, schedule[0]);
      SchedulesEnd(Step(gs, schedule[0]), schedule[1..]);
    }
  }

  // ---- Mutual exclusion ----

  /** A writer shares its lock with nobody, and a waiting writer has kept other writers out. */
  predicate Apart(g: Goroutine, h: Goroutine, l: Lock)
  {
    && (l in g.exclusive ==> l !in h.exclusive && l !in h.shared && !WaitsFor(h, l))
    && (WaitsFor(g, l) ==> !WaitsFor(h, l))
  }

  predicate Exclusion(gs: seq<Goroutine>)
  {
    forall i, j, l :: 0 <= i < |gs| && 0 <= j < |gs| && i != j ==> Apart(gs[i], gs[j], l)
  }

  lemma AdvanceApart(gs: seq<Goroutine>, n: nat, j: nat, l: Lock)
    requires n < |gs| && j < |gs| && n != j && CanStep(gs, n) && Sound(gs[n])
    requires Apart(gs[n], gs[j], l) && Apart(gs[j], gs[n], l)
    ensures Apart(Advance(gs[n]), gs[j], l) && Apart(gs[j], Advance(gs[n]), l)
  {
    hide Disciplined;
    var g := gs[n];
    match g.rest[0]
    case RLock(_) =>
    case RUnlock(_) =>
    case WLock(m) =>
      if g.waiting {
        assert WaitsFor(g, m);
      }
    case WUnlock(_) =>
  }

  lemma StepExclusion(gs: seq<Goroutine>, n: nat)
    requires n < |gs| && CanStep(gs, n) && Exclusion(gs) && AllSound(gs)
    ensures Exclusion(Step(gs, n))
  {
    hide Sound, Apart, CanStep, Advance;
    var gs' := Step(gs, n);
    forall i, j, l | 0 <= i < |gs'| && 0 <= j < |gs'| && i != j
      ensures Apart(gs'[i], gs'[j], l)
    {
      assert Apart(gs[i], gs[j], l) && Apart(gs[j], gs[i], l);
      if i == n {
        AdvanceApart(gs, n, j, l);
      } else if j == n {
        AdvanceApart(gs, n, i, l);
      }
    }
  }

  lemma {:induction false} RunExclusion(gs: seq<Goroutine>, schedule: seq<nat>)
    requires AllSound(gs) && Exclusion(gs) && CanRun(gs, schedule)
    ensures Exclusion(Run(gs, schedule))
    decreases schedule
  {
    hide AllSound, Exclusion, CanStep, Step;
    if schedule == [] {
    } else {
      StepSound(gs, schedule[0]);
      StepExclusion(gs, schedule[0]);
      RunExclusion(Step(gs, schedule[0]), schedule[1..]);
    }
  }

  /** In every run a lock held for writing is held by one goroutine only. */
  lemma MutualExclusion(gs: seq<Goroutine>, schedule: seq<nat>)
    requires Initial(gs) && CanRun(gs, schedule)
    ensures Exclusion(Run(gs, schedule))
  {
    hide AllSound, CanRun, Run, Programs;
    InitialSound(gs);
    assert Exclusion(gs) by {
      forall i, j, l | 0 <= i < |gs| && 0 <= j < |gs| && i != j
        ensures Apart(gs[i], gs[j], l)
      {
        var cs :| gs[i] == Start(cs);
        var cs' :| gs[j] == Start(cs');
      }
    }
    RunExclusion(gs, schedule);
  }

  // ---- Why the Locked variant ----

  /** SendMessage if it called activeOutboundComm instead of activeOutboundCommLocked. */
  const NESTED_SEND: seq<Op> := [RLock(Mesh), RLock(Mesh), RUnlock(Mesh), RUnlock(Mesh)]

  const WAIT: seq<Op> := [WLock(Mesh), WUnlock(Mesh)]

  /** The sender inside its first read lock. */
  const READER := Goroutine([RLock(Mesh), RUnlock(Mesh), RUnlock(Mesh)], multiset{Mesh}, multiset{}, false)

  /** A health report with `rest` to go, holding the broker for reading or nothing, announced as a writer or not. */
  function Reporting(rest: seq<Op>, broker: bool, waiting: bool): Goroutine
  {
    Goroutine(rest, if broker then multiset{Broker} else multiset{}, multiset{}, waiting)
  }

  lemma NestedSteps()
    ensures var gs := [Goroutine(NESTED_SEND, multiset{}, multiset{}, false), Reporting(PUBLISH + WAIT, false, false)];
      CanStep(gs, 0) && Step(gs, 0) == [READER, gs[1]]
    ensures var gs := [READER, Reporting(PUBLISH + WAIT, false, false)];
      CanStep(gs, 1) && Step(gs, 1) == [READER, Reporting([RUnlock(Broker)] + WAIT, true, false)]
  {
    assert multiset{} + multiset{Mesh} == multiset{Mesh} && multiset{} + multiset{Broker} == multiset{Broker};
    assert NESTED_SEND[1..] == READER.rest;
    assert (PUBLISH + WAIT)[1..] == [RUnlock(Broker)] + WAIT;
  }

  lemma WriterAnnounces()
    ensures var gs := [READER, Reporting([RUnlock(Broker)] + WAIT, true, false)];
      CanStep(gs, 1) && Step(gs, 1) == [READER, Reporting(WAIT, false, false)]
    ensures var gs := [READER, Reporting(WAIT, false, false)];
      CanStep(gs, 1) && Step(gs, 1) == [READER, Reporting(WAIT, false, true)]
    ensures var gs := [READER, Reporting(WAIT, false, true)];
      !Finished(gs[0]) && !Finished(gs[1]) && !CanStep(gs, 0) && !CanStep(gs, 1)
  {
    assert ([RUnlock(Broker)] + WAIT)[1..] == WAIT;
    assert multiset{Broker} - multiset{Broker} == multiset{};
    var gs := [READER, Reporting(WAIT, false, true)];
    assert WaitsFor(gs[1], Mesh) && Mesh in gs[0].shared;
  }

  lemma ReportStart()
    ensures Start([PublishHealthEvent(false)]) == Reporting(PUBLISH + WAIT, false, false)
  {
    assert Repeat(PUBLISH, 0) + [WUnlock(Mesh)] == [WUnlock(Mesh)];
    assert PublishUnderMesh(0) == WAIT;
    assert Programs([PublishHealthEvent(false)]) == PUBLISH + WAIT;
  }

  /** Re-entering ms.mu for reading deadlocks against a health report that has announced itself as a writer. */
  lemma NestedReadLockDeadlocks(gs: seq<Goroutine>)
    requires gs == [Goroutine(NESTED_SEND, multiset{}, multiset{}, false), Start([PublishHealthEvent(false)])]
    ensures CanRun(gs, [0, 1, 1, 1])
    ensures var end := Run(gs, [0, 1, 1, 1]);
      forall i :: 0 <= i < |end| ==> !Finished(end[i]) && !CanStep(end, i)
  {
    hide CanStep, Step, Start, Reporting, Finished;
    ReportStart();
    NestedSteps();
    WriterAnnounces();
    assert [0, 1, 1, 1][1..] == [1, 1, 1] && [1, 1, 1][1..] == [1, 1] && [1, 1][1..] == [1] && [1][1..] == [];
    assert CanRun([READER, Reporting(WAIT, false, false)], [1]);
    assert CanRun([READER, Reporting([RUnlock(Broker)] + WAIT, true, false)], [1, 1]);
  }
}

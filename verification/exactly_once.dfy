// Two serial masters deliver the same stream; the replay filter lets each message through once.

module ExactlyOnce {
  import opened Base
  import opened Wire
  import opened Replay
  import opened Server
  import opened Runs
  import Auth
  import Nodes
  import Commands
  import Liveness
  import MacText
  import Uuid

  /** The deliveries the filter guards: version 2, an epoch, a six-byte origin. */
  predicate Guarded(t: Step)
  {
    t.Deliver? && t.m.protoVersion == 2 && t.m.epochNum > 0 && |t.m.origin| == 6
  }

  /** The guarded messages of a run, copies included, as they came in. */
  function Arrivals(steps: seq<Step>): seq<MeshMessage>
  {
    if steps == [] then []
    else
      var before, t := Arrivals(steps[..|steps| - 1]), steps[|steps| - 1];
      if Guarded(t) then before + [t.m] else before
  }

  /** The run without the later copies of a message; approvals, sweeps and all other steps stay. */
  function Once(steps: seq<Step>): seq<Step>
  {
    if steps == [] then []
    else
      var before, t := steps[..|steps| - 1], steps[|steps| - 1];
      if Guarded(t) && Seen(Arrivals(before), t.m) then Once(before) else Once(before) + [t]
  }

  // ---- First arrivals ----

  /** Copies of one message carry the same origin, epoch and sequence number. */
  predicate SameID(m: MeshMessage, m': MeshMessage)
  {
    m.origin == m'.origin && m.epochNum == m'.epochNum && m.seqNum == m'.seqNum
  }

  predicate Seen(arrivals: seq<MeshMessage>, m: MeshMessage)
  {
    exists i :: 0 <= i < |arrivals| && SameID(arrivals[i], m)
  }

  /** The arrivals without later copies. */
  function First(arrivals: seq<MeshMessage>): seq<MeshMessage>
  {
    if arrivals == [] then []
    else
      var before, a := arrivals[..|arrivals| - 1], arrivals[|arrivals| - 1];
      if Seen(before, a) then First(before) else First(before) + [a]
  }

  /** How many messages of the same origin follow the message `m` in `ms`. */
  function OthersSince(ms: seq<MeshMessage>, m: MeshMessage): nat
  {
    if ms == [] then 0
    else
      var before, last := ms[..|ms| - 1], ms[|ms| - 1];
      if SameID(last, m) then 0
      else OthersSince(before, m) + (if last.origin == m.origin then 1 else 0)
  }

  /** Every later copy comes while at most 31 other messages of its origin have arrived since the first. */
  ghost predicate Timely(arrivals: seq<MeshMessage>)
  {
    if arrivals == [] then true
    else
      var before, a := arrivals[..|arrivals| - 1], arrivals[|arrivals| - 1];
      Timely(before) && (Seen(before, a) ==> OthersSince(First(before), a) <= 31)
  }

  // ---- Histories ----

  function PairsOf(ms: seq<MeshMessage>, mac: Mac): seq<Pair>
  {
    if ms == [] then []
    else
      var before, last := PairsOf(ms[..|ms| - 1], mac), ms[|ms| - 1];
      if last.origin == mac then before + [PairOf(last)] else before
  }

  lemma {:induction false} FirstSeen(arrivals: seq<MeshMessage>, m: MeshMessage)
    ensures Seen(First(arrivals), m) <==> Seen(arrivals, m)
  {
    hide SameID;
    if arrivals == [] {
    } else {
      var n := |arrivals| - 1;
      var before, a := arrivals[..n], arrivals[n];
      FirstSeen(before, m);
      SeenAppend(before, a, m);
      assert arrivals == before + [a];
      if !Seen(before, a) {
        SeenAppend(First(before), a, m);
      } else if SameID(a, m) {
        SeenTransfers(before, a, m);
      }
    }
  }

  lemma SeenAppend(arrivals: seq<MeshMessage>, a: MeshMessage, m: MeshMessage)
    ensures Seen(arrivals + [a], m) <==> Seen(arrivals, m) || SameID(a, m)
  {
    hide SameID;
    var all := arrivals + [a];
    if Seen(arrivals, m) {
      var i :| 0 <= i < |arrivals| && SameID(arrivals[i], m);
      assert SameID(all[i], m);
    }
    if SameID(a, m) {
      assert SameID(all[|arrivals|], m);
    }
  }

  lemma SeenTransfers(arrivals: seq<MeshMessage>, m: MeshMessage, m': MeshMessage)
    requires Seen(arrivals, m) && SameID(m, m')
    ensures Seen(arrivals, m')
  {
    var i :| 0 <= i < |arrivals| && SameID(arrivals[i], m);
    assert SameID(arrivals[i], m');
  }

  lemma {:induction false} PairsAreSeen(ms: seq<MeshMessage>, m: MeshMessage)
    requires |m.origin| == 6
    ensures PairOf(m) in PairsOf(ms, m.origin) <==> Seen(ms, m)
  {
    if ms == [] {
    } else {
      var n := |ms| - 1;
      PairsAreSeen(ms[..n], m);
      SeenAppend(ms[..n], ms[n], m);
      assert ms == ms[..n] + [ms[n]];
    }
  }

  /** The pair of a message already listed sits `OthersSince` places from the end of its origin's history. */
  lemma {:induction false} PairPosition(ms: seq<MeshMessage>, m: MeshMessage)
    requires |m.origin| == 6 && Seen(ms, m)
    ensures var h := PairsOf(ms, m.origin);
      OthersSince(ms, m) < |h| && h[|h| - 1 - OthersSince(ms, m)] == PairOf(m)
  {
    var n := |ms| - 1;
    assert ms == ms[..n] + [ms[n]];
    SeenAppend(ms[..n], ms[n], m);
    if SameID(ms[n], m) {
    } else {
      PairPosition(ms[..n], m);
    }
  }

  /** First arrivals have distinct identities, so a history of them never repeats a pair. */
  ghost predicate NoRepeats(h: seq<Pair>)
  {
    forall i, j :: 0 <= i < j < |h| ==> h[i] != h[j]
  }

  lemma {:induction false} FirstsNoRepeats(arrivals: seq<MeshMessage>, mac: Mac)
    ensures NoRepeats(PairsOf(First(arrivals), mac))
  {
    hide Seen;
    if arrivals == [] {
    } else {
      var n := |arrivals| - 1;
      var before, a := arrivals[..n], arrivals[n];
      FirstsNoRepeats(before, mac);
      if !Seen(before, a) {
        PairsAppend(First(before), a, mac);
        if a.origin == mac {
          FirstSeen(before, a);
          PairsAreSeen(First(before), a);
        }
      }
    }
  }

  lemma PairsAppend(ms: seq<MeshMessage>, a: MeshMessage, mac: Mac)
    ensures PairsOf(ms + [a], mac) ==
            if a.origin == mac then PairsOf(ms, mac) + [PairOf(a)] else PairsOf(ms, mac)
  {
    assert (ms + [a])[..|ms|] == ms;
  }

  /** A listed pair is in the window exactly if at most 31 of its origin follow it. */
  lemma WindowDecides(arrivals: seq<MeshMessage>, m: MeshMessage)
    requires |m.origin| == 6 && m.epochNum > 0 && Seen(arrivals, m)
    ensures Duplicate(PairsOf(First(arrivals), m.origin), PairOf(m)) <==>
            OthersSince(First(arrivals), m) <= 31
  {
    hide Seen, First, PairsOf, OthersSince;
    FirstSeen(arrivals, m);
    PairPosition(First(arrivals), m);
    FirstsNoRepeats(arrivals, m.origin);
    PositionInWindow(PairsOf(First(arrivals), m.origin), OthersSince(First(arrivals), m));
  }

  lemma PositionInWindow(h: seq<Pair>, back: nat)
    requires back < |h| && NoRepeats(h)
    ensures h[|h| - 1 - back] in Window(h) <==> back <= 31
  {
    var i := |h| - 1 - back;
    if back <= 31 {
      InWindow(h, i);
    } else {
      forall k | 0 <= k < |Window(h)|
        ensures Window(h)[k] != h[i]
      {
        assert Window(h)[k] == h[|h| - SLOTS + k];
      }
    }
  }

  // ---- Handling once ----

  /** The replay cache holds exactly the first arrivals. */
  ghost predicate Mirrors(hs: Histories, firsts: seq<MeshMessage>)
  {
    forall mac: Mac :: HistoryOf(hs, mac) == PairsOf(firsts, mac)
  }

  lemma StepReplay(c: Config, s: State, t: Step)
    requires Enabled(s, t)
    ensures Apply(c, s, t).replay == if Guarded(t) then RecordFor(s.replay, t.m.origin, PairOf(t.m)) else s.replay
  {
    hide Classify, Duplicate, RecordFor, Perform, Approve, Reject, UpdateNode, NodeCommand, Sweep, Configure,
         Nodes.LookupOutcome, Commands.TokenOutcome;
    match t
    case Deliver(m, chosen, now) =>
      PerformKeepsReplay(c, s, Classify(m), chosen, now);
      if Guarded(t) {
        GuardedVersion(t);
        PerformKeepsReplay(c, s.(replay := RecordFor(s.replay, m.origin, PairOf(m))), Classify(m), chosen, now);
      }
    case _ => OtherReplay(c, s, t);
  }

  lemma OtherReplay(c: Config, s: State, t: Step)
    requires Enabled(s, t) && !t.Deliver?
    ensures Apply(c, s, t).replay == s.replay
  {
    hide Auth.Approved, Auth.Rejected, ApprovedNodes, ApprovalFrames, Uuid.Format, Commands.Head, Commands.Payload,
         Liveness.MarkExpired, Nodes.Assigned, Nodes.Removed, Nodes.LookupOutcome, MacText.Normalize, MacText.ParseMAC;
  }

  lemma GuardedVersion(t: Step)
    requires Guarded(t)
    ensures t.Deliver? && Tracked(t.m) && t.m.protoVersion == 2 && t.m.epochNum > 0 && |t.m.origin| == 6
  {
  }

  /** A copy within the window leaves the whole state as it was. */
  lemma CopyDropped(c: Config, s: State, t: Step)
    requires Enabled(s, t) && Guarded(t) && Duplicate(HistoryOf(s.replay, t.m.origin), PairOf(t.m))
    ensures Apply(c, s, t) == s
  {
    hide Classify, Perform, Commands.TokenOutcome;
    assert t.m.origin in s.replay;
    assert RecordFor(s.replay, t.m.origin, PairOf(t.m)) == s.replay;
  }

  lemma NewMirrors(hs: Histories, firsts: seq<MeshMessage>, m: MeshMessage)
    requires Mirrors(hs, firsts) && Tracked(m) && |m.origin| == 6 && !Seen(firsts, m)
    ensures Mirrors(RecordFor(hs, m.origin, PairOf(m)), firsts + [m])
    ensures !Duplicate(HistoryOf(hs, m.origin), PairOf(m))
  {
    hide PairsOf, Seen;
    PairsAreSeen(firsts, m);
    InWindowIsListed(HistoryOf(hs, m.origin), PairOf(m));
    forall mac: Mac
      ensures HistoryOf(RecordFor(hs, m.origin, PairOf(m)), mac) == PairsOf(firsts + [m], mac)
    {
      PairsAppend(firsts, m, mac);
    }
  }

  lemma InWindowIsListed(h: seq<Pair>, p: Pair)
    ensures p in Window(h) ==> p in h
  {
  }

  lemma ArrivalsAppend(before: seq<Step>, t: Step)
    ensures Arrivals(before + [t]) == if Guarded(t) then Arrivals(before) + [t.m] else Arrivals(before)
    ensures Once(before + [t]) ==
            if Guarded(t) && Seen(Arrivals(before), t.m) then Once(before) else Once(before) + [t]
  {
    hide Guarded, Seen;
    assert (before + [t])[..|before|] == before;
  }

  lemma FirstAppend(before: seq<MeshMessage>, m: MeshMessage)
    ensures First(before + [m]) == if Seen(before, m) then First(before) else First(before) + [m]
    ensures Timely(before + [m]) <==>
            Timely(before) && (Seen(before, m) ==> OthersSince(First(before), m) <= 31)
  {
    hide Seen, OthersSince;
    assert (before + [m])[..|before|] == before;
  }

  /** Without its later copies a run delivers the first arrivals. */
  lemma {:induction false} OnceArrives(steps: seq<Step>)
    ensures Arrivals(Once(steps)) == First(Arrivals(steps))
  {
    hide Guarded, Seen;
    if steps == [] {
    } else {
      var n := |steps| - 1;
      var before, t := steps[..n], steps[n];
      assert steps == before + [t];
      OnceArrives(before);
      if Guarded(t) {
        GuardedVersion(t);
        FirstAppend(Arrivals(before), t.m);
      }
      ArrivalsAppend(before, t);
      ArrivalsAppend(Once(before), t);
    }
  }

  /**
   * Timely copies change nothing: whatever else happens in between, the final state, with everything published and
   * sent, is that of the run in which each message comes once, at its first arrival.
   */
  lemma {:induction false} TimelyCopiesChangeNothing(c: Config, s: State, steps: seq<Step>)
    requires s.replay == map[] && CanRun(c, s, steps) && Timely(Arrivals(steps))
    ensures CanRun(c, s, Once(steps)) && Run(c, s, Once(steps)) == Run(c, s, steps)
    ensures Mirrors(Run(c, s, steps).replay, First(Arrivals(steps)))
    decreases |steps|
  {
    hide Enabled, Apply, CanRun, Run, Arrivals, Once, First, Timely, Seen, OthersSince, Duplicate, RecordFor, PairsOf,
         Guarded, Mirrors, Tracked;
    if steps == [] {
      NothingArrives();
    } else {
      var n := |steps| - 1;
      var before, t := steps[..n], steps[n];
      assert steps == before + [t];
      RunLast(c, s, before, t);
      ArrivalsAppend(before, t);
      var s1 := Run(c, s, before);
      StepReplay(c, s1, t);
      if !Guarded(t) {
        TimelyCopiesChangeNothing(c, s, before);
        RunSnoc(c, s, Once(before), t);
      } else {
        GuardedVersion(t);
        FirstAppend(Arrivals(before), t.m);
        TimelyCopiesChangeNothing(c, s, before);
        if Seen(Arrivals(before), t.m) {
          WindowDecides(Arrivals(before), t.m);
          MirrorsAt(s1.replay, First(Arrivals(before)), t.m.origin);
          CopyDropped(c, s1, t);
        } else {
          FirstSeen(Arrivals(before), t.m);
          NewMirrors(s1.replay, First(Arrivals(before)), t.m);
          RunSnoc(c, s, Once(before), t);
        }
      }
    }
  }

  lemma NothingArrives()
    ensures Arrivals([]) == [] && Once([]) == [] && First([]) == [] && Timely([]) && Mirrors(map[], [])
    ensures OnlySeen(map[], [])
    ensures forall c, s :: CanRun(c, s, []) && Run(c, s, []) == s
  {
  }

  // ---- Exactly when ----

  /** How many guarded deliveries of a run pass the filter. */
  function Passed(c: Config, s: State, steps: seq<Step>): nat
    requires CanRun(c, s, steps)
    decreases steps
  {
    if steps == [] then 0 else PassedOne(s, steps[0]) + Passed(c, Apply(c, s, steps[0]), steps[1..])
  }

  function PassedOne(s: State, t: Step): nat
  {
    if Guarded(t) && Passes(s, t.m) then 1 else 0
  }

  lemma {:induction false} PassedAppend(c: Config, s: State, before: seq<Step>, t: Step)
    requires CanRun(c, s, before) && CanRun(c, s, before + [t])
    ensures Passed(c, s, before + [t]) == Passed(c, s, before) + PassedOne(Run(c, s, before), t)
    decreases before
  {
    hide Enabled, Apply, PassedOne;
    if before == [] {
      assert (before + [t])[1..] == [];
    } else {
      assert (before + [t])[1..] == before[1..] + [t];
      PassedAppend(c, Apply(c, s, before[0]), before[1..], t);
    }
  }

  /** Every pair in the cache has arrived. */
  ghost predicate OnlySeen(hs: Histories, arrivals: seq<MeshMessage>)
  {
    forall mac: Mac :: forall p :: p in HistoryOf(hs, mac) ==> p in PairsOf(arrivals, mac)
  }

  lemma RecordOnlySeen(hs: Histories, arrivals: seq<MeshMessage>, m: MeshMessage)
    requires OnlySeen(hs, arrivals) && |m.origin| == 6
    ensures OnlySeen(RecordFor(hs, m.origin, PairOf(m)), arrivals + [m])
  {
    hide PairsOf, Duplicate;
    forall mac: Mac, p | p in HistoryOf(RecordFor(hs, m.origin, PairOf(m)), mac)
      ensures p in PairsOf(arrivals + [m], mac)
    {
      PairsAppend(arrivals, m, mac);
    }
  }

  /** Each message passes at least once, and none passes twice exactly when every later copy is timely. */
  lemma {:induction false} PassedOnceIffTimely(c: Config, s: State, steps: seq<Step>)
    requires s.replay == map[] && CanRun(c, s, steps)
    ensures Passed(c, s, steps) >= |First(Arrivals(steps))|
    ensures Passed(c, s, steps) == |First(Arrivals(steps))| <==> Timely(Arrivals(steps))
    ensures OnlySeen(Run(c, s, steps).replay, Arrivals(steps))
    decreases |steps|
  {
    hide Enabled, Apply, CanRun, Run, Arrivals, First, Timely, Seen, OthersSince, Duplicate, RecordFor, PairsOf,
         HistoryOf, Guarded, OnlySeen, Passed, PassedOne, Tracked, Mirrors;
    if steps == [] {
      NothingArrives();
      NothingPasses(c, s);
    } else {
      var n := |steps| - 1;
      var before, t := steps[..n], steps[n];
      assert steps == before + [t];
      RunLast(c, s, before, t);
      ArrivalsAppend(before, t);
      PassedOnceIffTimely(c, s, before);
      PassedAppend(c, s, before, t);
      var s1 := Run(c, s, before);
      StepReplay(c, s1, t);
      if Guarded(t) {
        ArrivalPasses(c, s, before, t);
      } else {
        UnguardedPasses(s1, t);
      }
    }
  }

  lemma UnguardedPasses(s: State, t: Step)
    requires !Guarded(t)
    ensures PassedOne(s, t) == 0
  {
  }

  lemma NothingPasses(c: Config, s: State)
    requires CanRun(c, s, [])
    ensures Passed(c, s, []) == 0
  {
  }

  /** A first arrival passes, a later copy does so unless it is timely. */
  lemma ArrivalPasses(c: Config, s: State, before: seq<Step>, t: Step)
    requires s.replay == map[] && CanRun(c, s, before) && Guarded(t)
    requires OnlySeen(Run(c, s, before).replay, Arrivals(before))
    ensures var s1 := Run(c, s, before); var arrivals := Arrivals(before);
      && (!Seen(arrivals, t.m) ==> PassedOne(s1, t) == 1)
      && (Seen(arrivals, t.m) && Timely(arrivals) ==> (PassedOne(s1, t) == 0 <==> Timely(arrivals + [t.m])))
      && |First(arrivals + [t.m])| == |First(arrivals)| + (if Seen(arrivals, t.m) then 0 else 1)
      && (Timely(arrivals + [t.m]) ==> Timely(arrivals))
      && (!Seen(arrivals, t.m) && Timely(arrivals) ==> Timely(arrivals + [t.m]))
      && OnlySeen(RecordFor(s1.replay, t.m.origin, PairOf(t.m)), arrivals + [t.m])
  {
    hide CanRun, Run, Arrivals, First, Timely, Seen, OthersSince, RecordFor, PairsOf, HistoryOf, OnlySeen, Tracked,
         Mirrors, Duplicate, Guarded;
    var s1 := Run(c, s, before);
    var arrivals := Arrivals(before);
    GuardedVersion(t);
    FirstAppend(arrivals, t.m);
    RecordOnlySeen(s1.replay, arrivals, t.m);
    if Seen(arrivals, t.m) {
      if Timely(arrivals) {
        TimelyCopiesChangeNothing(c, s, before);
        WindowDecides(arrivals, t.m);
        MirrorsAt(s1.replay, First(arrivals), t.m.origin);
      }
    } else {
      UnseenPasses(s1, arrivals, t.m);
    }
  }

  lemma MirrorsAt(hs: Histories, firsts: seq<MeshMessage>, mac: Mac)
    requires Mirrors(hs, firsts)
    ensures HistoryOf(hs, mac) == PairsOf(firsts, mac)
  {
  }

  lemma UnseenPasses(s: State, arrivals: seq<MeshMessage>, m: MeshMessage)
    requires OnlySeen(s.replay, arrivals) && Tracked(m) && |m.origin| == 6 && !Seen(arrivals, m)
    ensures Passes(s, m)
  {
    hide PairsOf, Seen;
    PairsAreSeen(arrivals, m);
    InWindowIsListed(HistoryOf(s.replay, m.origin), PairOf(m));
  }

  // ---- Two masters ----

  /** How many frames one of the masters has delivered. */
  function Count(schedule: seq<bool>, master: bool): nat
  {
    if schedule == [] then 0
    else Count(schedule[..|schedule| - 1], master) + (if schedule[|schedule| - 1] == master then 1 else 0)
  }

  function Lead(schedule: seq<bool>): nat
  {
    if Count(schedule, true) >= Count(schedule, false) then Count(schedule, true) else Count(schedule, false)
  }

  /** Each master delivers the messages in order; the schedule says whose turn it was. */
  ghost predicate Interleaves(arrivals: seq<MeshMessage>, msgs: seq<MeshMessage>, schedule: seq<bool>)
  {
    if arrivals == [] then schedule == []
    else
      && |schedule| == |arrivals|
      && var n := |arrivals| - 1;
        && Interleaves(arrivals[..n], msgs, schedule[..n])
        && Count(schedule[..n], schedule[n]) < |msgs|
        && arrivals[n] == msgs[Count(schedule[..n], schedule[n])]
  }

  ghost predicate Distinct(msgs: seq<MeshMessage>)
  {
    forall i, j :: 0 <= i < j < |msgs| ==> !SameID(msgs[i], msgs[j])
  }

  /** At any moment the first arrivals are the messages up to the leading master, in their original order. */
  lemma {:induction false} FirstsFollowTheLead(arrivals: seq<MeshMessage>, msgs: seq<MeshMessage>, schedule: seq<bool>)
    requires Interleaves(arrivals, msgs, schedule) && Distinct(msgs)
    ensures Lead(schedule) <= |msgs| && First(arrivals) == msgs[..Lead(schedule)]
  {
    hide SameID, Seen, First, Lead, Count, Distinct;
    if arrivals == [] {
      NobodyLeads();
    } else {
      var n := |arrivals| - 1;
      var before, m := arrivals[..n], arrivals[n];
      var lead, k := Lead(schedule[..n]), Count(schedule[..n], schedule[n]);
      FirstsFollowTheLead(before, msgs, schedule[..n]);
      SeenBelowLead(before, msgs, lead, k);
      FirstAppend(before, m);
      assert arrivals == before + [m];
      LeadMoves(schedule);
      if k == lead {
        assert msgs[..lead + 1] == msgs[..lead] + [m];
      }
    }
  }

  lemma NobodyLeads()
    ensures Lead([]) == 0 && First([]) == []
  {
  }

  /** The lead grows when the leading master delivers. */
  lemma LeadMoves(schedule: seq<bool>)
    requires schedule != []
    ensures var n := |schedule| - 1; var lead, k := Lead(schedule[..n]), Count(schedule[..n], schedule[n]);
      k <= lead && Lead(schedule) == if k == lead then lead + 1 else lead
  {
  }

  lemma SeenBelowLead(before: seq<MeshMessage>, msgs: seq<MeshMessage>, lead: nat, k: nat)
    requires lead <= |msgs| && k < |msgs| && Distinct(msgs) && First(before) == msgs[..lead]
    ensures Seen(before, msgs[k]) <==> k < lead
  {
    FirstSeen(before, msgs[k]);
    var firsts := First(before);
    if k < lead {
      assert SameID(firsts[k], msgs[k]);
    }
    if Seen(firsts, msgs[k]) {
      var i :| 0 <= i < |firsts| && SameID(firsts[i], msgs[k]);
      assert SameID(msgs[i], msgs[k]) && SameID(msgs[k], msgs[i]);
    }
  }

  /** How many messages of the same origin lie between a message and the leading master. */
  function OthersBetween(msgs: seq<MeshMessage>, k: nat, lead: nat): nat
    requires k < lead <= |msgs|
    decreases lead
  {
    if lead == k + 1 then 0
    else OthersBetween(msgs, k, lead - 1) + (if msgs[lead - 1].origin == msgs[k].origin then 1 else 0)
  }

  /** Whenever a master delivers a message the other one is past, at most 31 of its origin lie between. */
  ghost predicate BoundedSkew(msgs: seq<MeshMessage>, schedule: seq<bool>)
  {
    if schedule == [] then true
    else
      var n := |schedule| - 1;
      var k, lead := Count(schedule[..n], schedule[n]), Lead(schedule[..n]);
      && BoundedSkew(msgs, schedule[..n])
      && (k < lead <= |msgs| ==> OthersBetween(msgs, k, lead) <= 31)
  }

  lemma {:induction false} SinceIsBetween(firsts: seq<MeshMessage>, msgs: seq<MeshMessage>, k: nat, lead: nat)
    requires k < lead <= |msgs| && Distinct(msgs) && firsts == msgs[..lead]
    ensures OthersSince(firsts, msgs[k]) == OthersBetween(msgs, k, lead)
    decreases lead
  {
    hide SameID;
    var n := lead - 1;
    if n > k {
      SinceIsBetween(firsts[..n], msgs, k, n);
      NotSame(msgs, k, n);
    } else {
      SameAsItself(msgs[k]);
    }
  }

  lemma NotSame(msgs: seq<MeshMessage>, k: nat, n: nat)
    requires k < n < |msgs| && Distinct(msgs)
    ensures !SameID(msgs[n], msgs[k])
  {
    assert !SameID(msgs[k], msgs[n]);
  }

  lemma SameAsItself(m: MeshMessage)
    ensures SameID(m, m)
  {
  }

  lemma {:induction false} SkewDecidesTimely(arrivals: seq<MeshMessage>, msgs: seq<MeshMessage>, schedule: seq<bool>)
    requires Interleaves(arrivals, msgs, schedule) && Distinct(msgs)
    ensures Timely(arrivals) <==> BoundedSkew(msgs, schedule)
  {
    hide SameID, Seen, First, OthersSince, OthersBetween, Distinct, Lead, Count;
    if arrivals == [] {
    } else {
      var n := |arrivals| - 1;
      var before, a := arrivals[..n], arrivals[n];
      var lead, k := Lead(schedule[..n]), Count(schedule[..n], schedule[n]);
      SkewDecidesTimely(before, msgs, schedule[..n]);
      FirstsFollowTheLead(before, msgs, schedule[..n]);
      SeenBelowLead(before, msgs, lead, k);
      if k < lead {
        SinceIsBetween(First(before), msgs, k, lead);
      }
    }
  }

  /**
   * However two masters interleave one stream of distinct messages, and whatever approvals, sweeps, commands and other
   * messages come in between: once either has delivered all of it the first arrivals are the stream in its order; each
   * message passes the filter exactly once if and only if the skew is bounded, and then the server ends in the state,
   * events and frames and all, of the run in which the stream comes once.
   */
  lemma TwoMasters(c: Config, s: State, msgs: seq<MeshMessage>, steps: seq<Step>, schedule: seq<bool>)
    requires s.replay == map[] && CanRun(c, s, steps)
    requires Distinct(msgs) && Interleaves(Arrivals(steps), msgs, schedule) && Lead(schedule) == |msgs|
    ensures Arrivals(Once(steps)) == First(Arrivals(steps)) == msgs
    ensures Passed(c, s, steps) >= |msgs|
    ensures Passed(c, s, steps) == |msgs| <==> BoundedSkew(msgs, schedule)
    ensures BoundedSkew(msgs, schedule) ==> CanRun(c, s, Once(steps)) && Run(c, s, Once(steps)) == Run(c, s, steps)
  {
    hide CanRun, Run, Arrivals, Once, Interleaves, Distinct, Lead, First, Passed, BoundedSkew, Timely;
    var arrivals := Arrivals(steps);
    OnceArrives(steps);
    FirstsFollowTheLead(arrivals, msgs, schedule);
    assert msgs[..|msgs|] == msgs;
    SkewDecidesTimely(arrivals, msgs, schedule);
    PassedOnceIffTimely(c, s, steps);
    if Timely(arrivals) {
      TimelyCopiesChangeNothing(c, s, steps);
    }
  }

  // ---- A bound in frames ----

  function Trail(schedule: seq<bool>): nat
  {
    if Count(schedule, true) >= Count(schedule, false) then Count(schedule, false) else Count(schedule, true)
  }

  /** Neither master is ever more than 32 frames ahead. */
  ghost predicate Close(schedule: seq<bool>)
  {
    if schedule == [] then true
    else
      var before := schedule[..|schedule| - 1];
      Close(before) && Lead(before) - Trail(before) <= 32
  }

  lemma {:induction false} BetweenAtMost(msgs: seq<MeshMessage>, k: nat, lead: nat)
    requires k < lead <= |msgs|
    ensures OthersBetween(msgs, k, lead) <= lead - k - 1
    decreases lead
  {
    if lead == k + 1 {
    } else {
      BetweenAtMost(msgs, k, lead - 1);
    }
  }

  /** Masters within 32 frames of each other keep the skew bounded, whatever the origins. */
  lemma {:induction false} CloseMastersSuffice(msgs: seq<MeshMessage>, schedule: seq<bool>)
    requires Close(schedule)
    ensures BoundedSkew(msgs, schedule)
  {
    hide OthersBetween, Count;
    if schedule == [] {
    } else {
      var n := |schedule| - 1;
      CloseMastersSuffice(msgs, schedule[..n]);
      var k, lead := Count(schedule[..n], schedule[n]), Lead(schedule[..n]);
      if k < lead <= |msgs| {
        BetweenAtMost(msgs, k, lead);
      }
    }
  }
}

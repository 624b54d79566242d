// mesh/event_broker.go: the events of the bus, and the online/offline transitions behind two of them.

module Events {
  import opened Base

  /** The `node` of the two transition events is the MAC text; it names the node for the proofs and is not published. */
  datatype Event =
    | Motion(nodeID: byte, name: string, zone: string, hopCount: u32)
    | Health(nodeID: byte, name: string, online: bool, uptime: u32, hopCount: u32)
    | NodeOnline(node: string, nodeID: byte, name: string)
    | NodeOffline(node: string, nodeID: byte, name: string, lastSeen: Time)
    | Enrolled(nodeID: byte, name: string, adapterType: string)
    | CommandAck(commandID: string, nodeID: byte)
}

/** publishHealthEvent and checkOfflineNodes of mesh/server.go. */
module Liveness {
  import opened Base
  import opened Events
  import opened Nodes

  /** nodeOnlineState: keyed by MAC text, true while the node counts as online. */
  type Flags = map<string, bool>

  /** Reading a missing key of a Go map[string]bool. */
  predicate Flag(flags: Flags, node: string)
  {
    node in flags && flags[node]
  }

  /** What ms.mu guards here, with everything published so far. */
  datatype Live = Live(flags: Flags, events: seq<Event>)

  function HealthEvent(n: NodeInfo, now: Time, timeout: Timeout): Event
  {
    Health(n.nodeID, n.name, !Expired(now, n.lastSeen, timeout), n.uptime, n.hopCount)
  }

  /** The critical section of publishHealthEvent: the first report after an absence announces the node. */
  function MarkOnline(l: Live, n: NodeInfo): Live
  {
    if Flag(l.flags, n.macString) then l
    else Live(l.flags[n.macString := true], l.events + [NodeOnline(n.macString, n.nodeID, n.name)])
  }

  function PublishHealth(l: Live, n: NodeInfo, now: Time, timeout: Timeout): Live
  {
    MarkOnline(l.(events := l.events + [HealthEvent(n, now, timeout)]), n)
  }

  /** One turn of the loop of checkOfflineNodes. */
  function MarkIfExpired(l: Live, n: NodeInfo, now: Time, timeout: Timeout): Live
  {
    if Expired(now, n.lastSeen, timeout) && Flag(l.flags, n.macString) then
      Live(l.flags[n.macString := false],
           l.events + [NodeOffline(n.macString, n.nodeID, n.name, n.lastSeen)])
    else l
  }

  /** The critical section of checkOfflineNodes over a snapshot of the registry. */
  function MarkExpired(l: Live, snapshot: seq<NodeInfo>, now: Time, timeout: Timeout): Live
  {
    if snapshot == [] then l
    else MarkIfExpired(MarkExpired(l, snapshot[..|snapshot| - 1], now, timeout),
                       snapshot[|snapshot| - 1], now, timeout)
  }

  // ---- Alternation ----

  /** The node's transitions in order: true for online, false for offline. */
  function Transitions(events: seq<Event>, node: string): seq<bool>
  {
    if events == [] then []
    else
      var e := events[|events| - 1];
      var before := Transitions(events[..|events| - 1], node);
      if e.NodeOnline? && e.node == node then before + [true]
      else if e.NodeOffline? && e.node == node then before + [false]
      else before
  }

  /** online, offline, online, ... */
  predicate Alternates(ts: seq<bool>)
  {
    forall i :: 0 <= i < |ts| ==> ts[i] == (i % 2 == 0)
  }

  /** The node's events alternate from node_online on, and its flag equals the last of them. */
  ghost predicate InStep(l: Live, node: string)
  {
    var ts := Transitions(l.events, node);
    Alternates(ts) && Flag(l.flags, node) == (ts != [] && ts[|ts| - 1])
  }

  ghost predicate AllInStep(l: Live)
  {
    forall node :: InStep(l, node)
  }

  lemma TransitionsAppend(events: seq<Event>, e: Event, node: string)
    ensures Transitions(events + [e], node) ==
            if e.NodeOnline? && e.node == node then Transitions(events, node) + [true]
            else if e.NodeOffline? && e.node == node then Transitions(events, node) + [false]
            else Transitions(events, node)
  {
    assert (events + [e])[..|events|] == events;
  }

  lemma OtherEventInStep(l: Live, e: Event)
    requires AllInStep(l) && !e.NodeOnline? && !e.NodeOffline?
    ensures AllInStep(l.(events := l.events + [e]))
  {
    hide Transitions;
    forall node
      ensures InStep(l.(events := l.events + [e]), node)
    {
      assert InStep(l, node);
      TransitionsAppend(l.events, e, node);
    }
  }

  lemma MarkOnlineInStep(l: Live, n: NodeInfo)
    requires AllInStep(l)
    ensures AllInStep(MarkOnline(l, n))
  {
    hide Transitions;
    forall node
      ensures InStep(MarkOnline(l, n), node)
    {
      assert InStep(l, node);
      TransitionsAppend(l.events, NodeOnline(n.macString, n.nodeID, n.name), node);
    }
  }

  lemma MarkIfExpiredInStep(l: Live, n: NodeInfo, now: Time, timeout: Timeout)
    requires AllInStep(l)
    ensures AllInStep(MarkIfExpired(l, n, now, timeout))
  {
    hide Transitions, Expired;
    forall node
      ensures InStep(MarkIfExpired(l, n, now, timeout), node)
    {
      assert InStep(l, node);
      TransitionsAppend(l.events, NodeOffline(n.macString, n.nodeID, n.name, n.lastSeen), node);
    }
  }

  lemma PublishHealthInStep(l: Live, n: NodeInfo, now: Time, timeout: Timeout)
    requires AllInStep(l)
    ensures AllInStep(PublishHealth(l, n, now, timeout))
  {
    hide AllInStep, MarkOnline;
    OtherEventInStep(l, HealthEvent(n, now, timeout));
    MarkOnlineInStep(l.(events := l.events + [HealthEvent(n, now, timeout)]), n);
  }

  lemma {:induction false} MarkExpiredInStep(l: Live, snapshot: seq<NodeInfo>, now: Time, timeout: Timeout)
    requires AllInStep(l)
    ensures AllInStep(MarkExpired(l, snapshot, now, timeout))
  {
    hide AllInStep, MarkIfExpired;
    if snapshot == [] {
    } else {
      var n := |snapshot| - 1;
      MarkExpiredInStep(l, snapshot[..n], now, timeout);
      MarkIfExpiredInStep(MarkExpired(l, snapshot[..n], now, timeout), snapshot[n], now, timeout);
    }
  }

  // ---- Every interleaving ----

  /** The registry, the guarded state, the reports read back but not yet announced, and a sweep's snapshot. */
  datatype Threads = Threads(
    nodes: NodeMap,
    live: Live,
    reports: seq<NodeInfo>,
    snapshot: Option<seq<NodeInfo>>)

  datatype Move =
    | UpdateRegistry(mac: Mac, adapterType: i32, uptime: u32, hopCount: u32, now: Time)
    | FetchReport(mac: Mac)
    | AnnounceHealth(report: nat, now: Time)
    | RaiseFlag(report: nat)
    | TakeSnapshot(order: seq<string>)
    | MarkSnapshot(now: Time)
    | OtherRegistryChange(nodes: NodeMap)

  ghost predicate CanMove(t: Threads, m: Move)
  {
    match m
    case UpdateRegistry(_, _, _, _, _) => true
    case FetchReport(mac) => MacText.MacToString(mac) in t.nodes
    case AnnounceHealth(i, _) => i < |t.reports|
    case RaiseFlag(i) => i < |t.reports|
    case TakeSnapshot(order) => t.snapshot.None? && IsOrder(order, t.nodes.Keys)
    case MarkSnapshot(_) => t.snapshot.Some?
    case OtherRegistryChange(ns) => Canonical(ns)
  }

  function Snapshot(ns: NodeMap, order: seq<string>): (s: seq<NodeInfo>)
    requires forall k :: k in order ==> k in ns
    ensures |s| == |order|
  {
    if order == [] then [] else Snapshot(ns, order[..|order| - 1]) + [ns[order[|order| - 1]]]
  }

  function MoveOn(t: Threads, m: Move, timeout: Timeout): Threads
    requires CanMove(t, m)
  {
    match m
    case UpdateRegistry(mac, adapterType, uptime, hopCount, now) =>
      t.(nodes := Updated(t.nodes, mac, adapterType, uptime, hopCount, now))
    case FetchReport(mac) => t.(reports := t.reports + [t.nodes[MacText.MacToString(mac)]])
    case AnnounceHealth(i, now) =>
      t.(live := t.live.(events := t.live.events + [HealthEvent(t.reports[i], now, timeout)]))
    case RaiseFlag(i) =>
      t.(live := MarkOnline(t.live, t.reports[i]), reports := t.reports[..i] + t.reports[i + 1..])
    case TakeSnapshot(order) => t.(snapshot := Some(Snapshot(t.nodes, order)))
    case MarkSnapshot(now) =>
      t.(live := MarkExpired(t.live, t.snapshot.value, now, timeout), snapshot := None)
    case OtherRegistryChange(ns) => t.(nodes := ns)
  }

  ghost predicate CanRun(t: Threads, moves: seq<Move>, timeout: Timeout)
    decreases moves
  {
    moves == [] || (CanMove(t, moves[0]) && CanRun(MoveOn(t, moves[0], timeout), moves[1..], timeout))
  }

  function Run(t: Threads, moves: seq<Move>, timeout: Timeout): Threads
    requires CanRun(t, moves, timeout)
    decreases moves
  {
    if moves == [] then t else Run(MoveOn(t, moves[0], timeout), moves[1..], timeout)
  }

  /** Each node's transitions alternate in every interleaving of reports, sweeps and registry changes. */
  lemma {:induction false} EveryInterleavingAlternates(t: Threads, moves: seq<Move>, timeout: Timeout)
    requires AllInStep(t.live) && CanRun(t, moves, timeout)
    ensures AllInStep(Run(t, moves, timeout).live)
    decreases moves
  {
    hide AllInStep, MarkOnline, MarkExpired, Updated, Snapshot;
    if moves == [] {
    } else {
      var m := moves[0];
      match m {
        case AnnounceHealth(i, now) => OtherEventInStep(t.live, HealthEvent(t.reports[i], now, timeout));
        case RaiseFlag(i) => MarkOnlineInStep(t.live, t.reports[i]);
        case MarkSnapshot(now) => MarkExpiredInStep(t.live, t.snapshot.value, now, timeout);
        case _ =>
      }
      EveryInterleavingAlternates(MoveOn(t, m, timeout), moves[1..], timeout);
    }
  }

  lemma StartInStep()
    ensures AllInStep(Live(map[], []))
  {
  }

  // ---- What a sweep decides ----

  ghost predicate DistinctNodes(snapshot: seq<NodeInfo>)
  {
    forall i, j :: 0 <= i < j < |snapshot| ==> snapshot[i].macString != snapshot[j].macString
  }

  /** A sweep lowers the flags of the expired nodes of its snapshot and touches no other flag. */
  lemma {:induction false} SweepDecides(l: Live, snapshot: seq<NodeInfo>, now: Time, timeout: Timeout, node: string)
    requires DistinctNodes(snapshot)
    ensures (forall i :: 0 <= i < |snapshot| ==> snapshot[i].macString != node) ==>
      (Flag(MarkExpired(l, snapshot, now, timeout).flags, node) <==> Flag(l.flags, node))
    ensures forall i :: 0 <= i < |snapshot| && snapshot[i].macString == node ==>
      (Flag(MarkExpired(l, snapshot, now, timeout).flags, node) <==>
       Flag(l.flags, node) && !Expired(now, snapshot[i].lastSeen, timeout))
    ensures MarkExpired(l, snapshot, now, timeout).flags.Keys == l.flags.Keys
  {
    hide Expired;
    if snapshot == [] {
    } else {
      SweepDecides(l, snapshot[..|snapshot| - 1], now, timeout, node);
    }
  }

  lemma {:induction false} SnapshotEntries(ns: NodeMap, order: seq<string>)
    requires forall k :: k in order ==> k in ns
    ensures forall i :: 0 <= i < |order| ==> Snapshot(ns, order)[i] == ns[order[i]]
  {
    if order == [] {
    } else {
      SnapshotEntries(ns, order[..|order| - 1]);
    }
  }

  lemma ListedSnapshot(ns: NodeMap, r: seq<NodeInfo>)
    requires Lists(r, ns, ns.Keys)
    ensures exists order :: IsOrder(order, ns.Keys) && r == Snapshot(ns, order)
  {
    hide Snapshot, IsOrder;
    var order :| IsOrder(order, ns.Keys) && ListsInOrder(r, ns, order);
    SnapshotEntries(ns, order);
    assert r == Snapshot(ns, order);
  }

  lemma SnapshotDistinct(ns: NodeMap, order: seq<string>)
    requires Canonical(ns) && IsOrder(order, ns.Keys)
    ensures DistinctNodes(Snapshot(ns, order))
  {
    SnapshotEntries(ns, order);
  }

  /** A node whose flag is down has been silent longer than the timeout. */
  ghost predicate Current(ns: NodeMap, l: Live, clock: Time, timeout: Timeout)
  {
    forall k :: k in ns && k in l.flags ==> Flag(l.flags, k) || Expired(clock, ns[k].lastSeen, timeout)
  }

  /** Right after a sweep a node's flag says whether it reported within the timeout. */
  ghost predicate Exact(ns: NodeMap, l: Live, clock: Time, timeout: Timeout)
  {
    forall k :: k in ns && k in l.flags ==> (Flag(l.flags, k) <==> clock - ns[k].lastSeen <= timeout)
  }

  lemma TimePasses(clock: Time, now: Time, lastSeen: Time, timeout: Timeout)
    requires clock <= now && Expired(clock, lastSeen, timeout)
    ensures Expired(now, lastSeen, timeout)
  {
  }

  lemma SweepMakesExact(ns: NodeMap, l: Live, clock: Time, order: seq<string>, now: Time, timeout: Timeout)
    requires Canonical(ns) && IsOrder(order, ns.Keys)
    requires Current(ns, l, clock, timeout) && clock <= now
    ensures Exact(ns, MarkExpired(l, Snapshot(ns, order), now, timeout), now, timeout)
  {
    hide Expired, MarkExpired, Snapshot, DistinctNodes;
    var s := Snapshot(ns, order);
    var l' := MarkExpired(l, s, now, timeout);
    SnapshotEntries(ns, order);
    SnapshotDistinct(ns, order);
    forall k | k in ns && k in l'.flags
      ensures Flag(l'.flags, k) <==> now - ns[k].lastSeen <= timeout
    {
      ExpiredMeans(now, ns[k].lastSeen, timeout);
      SweepDecides(l, s, now, timeout, k);
      assert k in order;
      var i :| 0 <= i < |order| && order[i] == k;
      assert s[i].macString == k && s[i] == ns[k];
      if Expired(clock, ns[k].lastSeen, timeout) {
        TimePasses(clock, now, ns[k].lastSeen, timeout);
      }
    }
  }

  // ---- A sweep among reports ----

  const START := Threads(map[], Live(map[], []), [], None)

  /** The snapshot has the node, and as silent longer than the timeout. */
  ghost predicate SeenExpired(snapshot: seq<NodeInfo>, node: string, now: Time, timeout: Timeout)
  {
    exists i :: 0 <= i < |snapshot| && snapshot[i].macString == node && now - snapshot[i].lastSeen > timeout
  }

  lemma MarkedFlag(l: Live, snapshot: seq<NodeInfo>, now: Time, timeout: Timeout, node: string)
    requires DistinctNodes(snapshot)
    ensures Flag(MarkExpired(l, snapshot, now, timeout).flags, node) <==>
            Flag(l.flags, node) && !SeenExpired(snapshot, node, now, timeout)
  {
    hide Expired, MarkExpired, DistinctNodes, Flag;
    SweepDecides(l, snapshot, now, timeout, node);
    if i :| 0 <= i < |snapshot| && snapshot[i].macString == node {
      ExpiredMeans(now, snapshot[i].lastSeen, timeout);
      forall j | 0 <= j < |snapshot| && snapshot[j].macString == node
        ensures j == i
      {
        OnePlace(snapshot, i, j);
      }
    }
  }

  lemma OnePlace(snapshot: seq<NodeInfo>, i: nat, j: nat)
    requires DistinctNodes(snapshot) && i < |snapshot| && j < |snapshot|
    requires snapshot[i].macString == snapshot[j].macString
    ensures i == j
  {
  }

  ghost predicate Sound(t: Threads)
  {
    Canonical(t.nodes) && (t.snapshot.Some? ==> DistinctNodes(t.snapshot.value))
  }

  lemma MoveSound(t: Threads, m: Move, timeout: Timeout)
    requires Sound(t) && CanMove(t, m)
    ensures Sound(MoveOn(t, m, timeout))
  {
    hide DistinctNodes, MacText.MacToString, Snapshot, MarkExpired, MarkOnline;
    if m.TakeSnapshot? {
      SnapshotDistinct(t.nodes, m.order);
    }
  }

  lemma {:induction false} RunSound(t: Threads, moves: seq<Move>, timeout: Timeout)
    requires Sound(t) && CanRun(t, moves, timeout)
    ensures Sound(Run(t, moves, timeout))
    decreases moves
  {
    hide Sound, CanMove, MoveOn;
    if moves == [] {
    } else {
      MoveSound(t, moves[0], timeout);
      RunSound(MoveOn(t, moves[0], timeout), moves[1..], timeout);
    }
  }

  /**
   * In every interleaving, whatever report or sweep is half done: the marking leaves a node's flag right exactly if
   * the node timely by now is the node whose flag was up and which the snapshot does not have as expired.
   */
  lemma SweepRightIff(moves: seq<Move>, now: Time, timeout: Timeout, node: string)
    requires CanRun(START, moves, timeout) && CanMove(Run(START, moves, timeout), MarkSnapshot(now))
    requires node in Run(START, moves, timeout).nodes
    ensures var t := Run(START, moves, timeout);
      var t' := MoveOn(t, MarkSnapshot(now), timeout);
      var timely := now - t.nodes[node].lastSeen <= timeout;
      && t'.nodes == t.nodes
      && ((Flag(t'.live.flags, node) <==> timely) <==>
          (timely <==> Flag(t.live.flags, node) && !SeenExpired(t.snapshot.value, node, now, timeout)))
  {
    hide CanRun, Run, MarkExpired, SeenExpired, Expired, Flag, DistinctNodes, Canonical;
    StartSound();
    RunSound(START, moves, timeout);
    var t := Run(START, moves, timeout);
    MarkedFlag(t.live, t.snapshot.value, now, timeout, node);
  }

  lemma StartSound()
    ensures Sound(START)
  {
  }

  // ---- A completed report and the next marking ----

  ghost predicate NoMarking(moves: seq<Move>)
  {
    forall m :: m in moves ==> !m.MarkSnapshot?
  }

  /** Only a marking lowers a flag, and only it discards a snapshot. */
  lemma MoveKeepsFlag(t: Threads, m: Move, timeout: Timeout, node: string)
    requires CanMove(t, m) && !m.MarkSnapshot?
    ensures Flag(t.live.flags, node) ==> Flag(MoveOn(t, m, timeout).live.flags, node)
    ensures t.snapshot.Some? ==> MoveOn(t, m, timeout).snapshot == t.snapshot
  {
    hide Updated, Snapshot, MacText.MacToString;
  }

  lemma {:induction false} RunKeepsFlag(t: Threads, moves: seq<Move>, timeout: Timeout, node: string)
    requires CanRun(t, moves, timeout) && NoMarking(moves)
    ensures Flag(t.live.flags, node) ==> Flag(Run(t, moves, timeout).live.flags, node)
    ensures t.snapshot.Some? ==> Run(t, moves, timeout).snapshot == t.snapshot
    decreases moves
  {
    hide CanMove, MoveOn, Flag;
    if moves == [] {
    } else {
      assert moves[0] in moves;
      MoveKeepsFlag(t, moves[0], timeout, node);
      RunKeepsFlag(MoveOn(t, moves[0], timeout), moves[1..], timeout, node);
    }
  }

  /**
   * Once a node's report is complete its flag is up, and whatever happens before the next marking, the node is online
   * after it exactly if the snapshot does not have the node as expired.
   */
  lemma CompletedReportIff(t: Threads, i: nat, moves: seq<Move>, now: Time, timeout: Timeout)
    requires Sound(t) && CanMove(t, RaiseFlag(i)) && NoMarking(moves)
    requires CanRun(MoveOn(t, RaiseFlag(i), timeout), moves, timeout)
    requires CanMove(Run(MoveOn(t, RaiseFlag(i), timeout), moves, timeout), MarkSnapshot(now))
    ensures var t1 := Run(MoveOn(t, RaiseFlag(i), timeout), moves, timeout);
      var node := t.reports[i].macString;
      Flag(MoveOn(t1, MarkSnapshot(now), timeout).live.flags, node) <==>
      !SeenExpired(t1.snapshot.value, node, now, timeout)
  {
    hide CanRun, Run, MarkExpired, SeenExpired, DistinctNodes, Canonical, NoMarking;
    var t0 := MoveOn(t, RaiseFlag(i), timeout);
    var t1 := Run(t0, moves, timeout);
    var node := t.reports[i].macString;
    assert Flag(t0.live.flags, node);
    MoveSound(t, RaiseFlag(i), timeout);
    RunSound(t0, moves, timeout);
    RunKeepsFlag(t0, moves, timeout, node);
    MarkedFlag(t1.live, t1.snapshot.value, now, timeout, node);
  }

  /** A snapshot has a node as expired exactly if the registry had it so when the snapshot was taken. */
  lemma SnapshotReads(ns: NodeMap, order: seq<string>, node: string, now: Time, timeout: Timeout)
    requires Canonical(ns) && IsOrder(order, ns.Keys)
    ensures SeenExpired(Snapshot(ns, order), node, now, timeout) <==>
            node in ns && now - ns[node].lastSeen > timeout
  {
    hide Expired, Snapshot;
    var s := Snapshot(ns, order);
    SnapshotEntries(ns, order);
    assert forall i :: 0 <= i < |order| ==> s[i].macString == order[i];
    if node in ns {
      assert node in order;
      var i :| 0 <= i < |order| && order[i] == node;
      assert s[i] == ns[node];
    }
    if i :| 0 <= i < |s| && s[i].macString == node && now - s[i].lastSeen > timeout {
      assert order[i] in order;
    }
  }

  /**
   * A sweep that begins after a node's report completed judges the node by the registry at that moment, whatever
   * lands between its snapshot and its marking; so a node that had reported within the timeout stays online.
   */
  lemma SweepAfterReport(t: Threads, order: seq<string>, moves: seq<Move>, now: Time, timeout: Timeout, node: string)
    requires Sound(t) && node in t.nodes && Flag(t.live.flags, node)
    requires CanMove(t, TakeSnapshot(order)) && NoMarking(moves)
    requires CanRun(MoveOn(t, TakeSnapshot(order), timeout), moves, timeout)
    ensures var t1 := Run(MoveOn(t, TakeSnapshot(order), timeout), moves, timeout);
      && CanMove(t1, MarkSnapshot(now))
      && (Flag(MoveOn(t1, MarkSnapshot(now), timeout).live.flags, node) <==>
          now - t.nodes[node].lastSeen <= timeout)
  {
    hide CanRun, Run, MarkExpired, SeenExpired, DistinctNodes, Canonical, NoMarking, Snapshot, Expired, Flag;
    var t0 := MoveOn(t, TakeSnapshot(order), timeout);
    var t1 := Run(t0, moves, timeout);
    MoveSound(t, TakeSnapshot(order), timeout);
    RunSound(t0, moves, timeout);
    RunKeepsFlag(t0, moves, timeout, node);
    MarkedFlag(t1.live, t1.snapshot.value, now, timeout, node);
    SnapshotReads(t.nodes, order, node, now, timeout);
  }

  // ---- Two sweeps that go wrong ----

  /** What a report tells of a node, and when the registry took it. */
  datatype Told = Told(adapterType: i32, uptime: u32, hopCount: u32, at: Time)

  function Recorded(ns: NodeMap, mac: Mac, r: Told): NodeMap
  {
    Updated(ns, mac, r.adapterType, r.uptime, r.hopCount, r.at)
  }

  /** A whole report, from the registry update to the flag; the event is announced at a later reading of the clock. */
  function ReportMoves(mac: Mac, r: Told, i: nat, later: Time): seq<Move>
  {
    [UpdateRegistry(mac, r.adapterType, r.uptime, r.hopCount, r.at), FetchReport(mac)]
    + [AnnounceHealth(i, later), RaiseFlag(i)]
  }

  lemma RunOne(t: Threads, m: Move, timeout: Timeout)
    requires CanMove(t, m)
    ensures CanRun(t, [m], timeout) && Run(t, [m], timeout) == MoveOn(t, m, timeout)
  {
    assert [m][1..] == [];
  }

  lemma {:induction false} RunConcat(t: Threads, a: seq<Move>, b: seq<Move>, timeout: Timeout)
    requires CanRun(t, a, timeout) && CanRun(Run(t, a, timeout), b, timeout)
    ensures CanRun(t, a + b, timeout) && Run(t, a + b, timeout) == Run(Run(t, a, timeout), b, timeout)
    decreases a
  {
    hide CanMove, MoveOn;
    if a == [] {
      assert a + b == b;
    } else {
      assert (a + b)[1..] == a[1..] + b;
      RunConcat(MoveOn(t, a[0], timeout), a[1..], b, timeout);
    }
  }

  lemma RunTwo(t: Threads, m: Move, n: Move, timeout: Timeout)
    requires CanMove(t, m) && CanMove(MoveOn(t, m, timeout), n)
    ensures CanRun(t, [m, n], timeout) && Run(t, [m, n], timeout) == MoveOn(MoveOn(t, m, timeout), n, timeout)
  {
    hide CanMove, MoveOn;
    RunOne(t, m, timeout);
    RunOne(MoveOn(t, m, timeout), n, timeout);
    RunConcat(t, [m], [n], timeout);
    assert [m] + [n] == [m, n];
  }

  /** With nothing in between, the moves of a report amount to one update and one call of publishHealthEvent. */
  lemma WholeReport(t: Threads, mac: Mac, r: Told, later: Time, timeout: Timeout)
    ensures CanRun(t, ReportMoves(mac, r, |t.reports|, later), timeout)
    ensures var ns := Recorded(t.nodes, mac, r);
      Run(t, ReportMoves(mac, r, |t.reports|, later), timeout) ==
      t.(nodes := ns, live := PublishHealth(t.live, ns[MacText.MacToString(mac)], later, timeout))
  {
    hide MacText.MacToString, MarkOnline, HealthEvent, Updated;
    var i := |t.reports|;
    var update, fetch := UpdateRegistry(mac, r.adapterType, r.uptime, r.hopCount, r.at), FetchReport(mac);
    RecordedHas(t.nodes, mac, r);
    var t1 := MoveOn(t, update, timeout);
    var t2 := MoveOn(t1, fetch, timeout);
    RunTwo(t, update, fetch, timeout);
    RunTwo(t2, AnnounceHealth(i, later), RaiseFlag(i), timeout);
    assert t2.reports[..i] + t2.reports[i + 1..] == t.reports;
    RunConcat(t, [update, fetch], [AnnounceHealth(i, later), RaiseFlag(i)], timeout);
  }

  lemma RecordedHas(ns: NodeMap, mac: Mac, r: Told)
    ensures MacText.MacToString(mac) in Recorded(ns, mac, r)
    ensures Recorded(ns, mac, r)[MacText.MacToString(mac)].lastSeen == r.at
    ensures Recorded(map[], mac, r).Keys == {MacText.MacToString(mac)}
    ensures Canonical(ns) ==>
      Recorded(ns, mac, r)[MacText.MacToString(mac)].macString == MacText.MacToString(mac)
  {
    hide MacText.MacToString;
  }

  /** A report, then a sweep that takes its snapshot before a second whole report and marks after it. */
  function LateReport(mac: Mac, first: Told, second: Told, now: Time): seq<Move>
  {
    ReportMoves(mac, first, 0, first.at) + [TakeSnapshot([MacText.MacToString(mac)])]
    + ReportMoves(mac, second, 0, second.at) + [MarkSnapshot(now)]
  }

  /**
   * A node reported long ago and reports again between a sweep's snapshot and its marking: the second report is
   * complete and in time, none is pending, and yet the node ends up offline.
   */
  lemma ReportDuringSweepIsLost(mac: Mac, first: Told, second: Told, now: Time, timeout: Timeout)
    requires now - first.at > timeout >= now - second.at
    ensures CanRun(START, LateReport(mac, first, second, now), timeout)
    ensures var t := Run(START, LateReport(mac, first, second, now), timeout);
      var k := MacText.MacToString(mac);
      && t.reports == [] && t.snapshot == None
      && k in t.nodes && t.nodes[k].lastSeen == second.at && now - t.nodes[k].lastSeen <= timeout
      && !Flag(t.live.flags, k)
  {
    hide MacText.MacToString, CanRun, Run, Updated, PublishHealth, Snapshot, MarkExpired, SeenExpired, ReportMoves,
         DistinctNodes, Flag, Expired, Canonical, Recorded;
    var k := MacText.MacToString(mac);
    var take, mark := TakeSnapshot([k]), MarkSnapshot(now);
    var early, late := ReportMoves(mac, first, 0, first.at), ReportMoves(mac, second, 0, second.at);
    WholeReport(START, mac, first, first.at, timeout);
    RecordedHas(map[], mac, first);
    var t1 := Run(START, early, timeout);
    assert CanMove(t1, take);
    var t2 := MoveOn(t1, take, timeout);
    RunOne(t1, take, timeout);
    RunConcat(START, early, [take], timeout);
    WholeReport(t2, mac, second, second.at, timeout);
    var t3 := Run(t2, late, timeout);
    RunConcat(START, early + [take], late, timeout);
    RunOne(t3, mark, timeout);
    RunConcat(START, early + [take] + late, [mark], timeout);
    RecordedHas(t2.nodes, mac, second);
    StartSound();
    RunSound(START, early, timeout);
    SnapshotDistinct(t1.nodes, [k]);
    SnapshotReads(t1.nodes, [k], k, now, timeout);
    MarkedFlag(t3.live, t3.snapshot.value, now, timeout, k);
  }

  /** A whole sweep between a report's registry update and its flag. */
  function SweepInReport(mac: Mac, r: Told, now: Time): seq<Move>
  {
    [UpdateRegistry(mac, r.adapterType, r.uptime, r.hopCount, r.at), TakeSnapshot([MacText.MacToString(mac)])]
    + [MarkSnapshot(now)]
  }

  /**
   * A sweep may also find a node in time whose flag is still down, because the report has not come to raising it;
   * the rest of the report then does.
   */
  lemma SweepInsideReport(mac: Mac, r: Told, now: Time, timeout: Timeout)
    requires now - r.at <= timeout
    ensures CanRun(START, SweepInReport(mac, r, now), timeout)
    ensures var t := Run(START, SweepInReport(mac, r, now), timeout);
      var k := MacText.MacToString(mac);
      && k in t.nodes && t.nodes[k].lastSeen == r.at && now - t.nodes[k].lastSeen <= timeout
      && !Flag(t.live.flags, k)
      && CanMove(t, FetchReport(mac))
      && var t1 := MoveOn(t, FetchReport(mac), timeout);
        CanMove(t1, RaiseFlag(0)) && Flag(MoveOn(t1, RaiseFlag(0), timeout).live.flags, k)
  {
    hide MacText.MacToString, CanRun, Run, Updated, Snapshot, MarkExpired, DistinctNodes, Expired, SeenExpired;
    var k := MacText.MacToString(mac);
    var update, take := UpdateRegistry(mac, r.adapterType, r.uptime, r.hopCount, r.at), TakeSnapshot([k]);
    RecordedHas(map[], mac, r);
    RunTwo(START, update, take, timeout);
    var t2 := Run(START, [update, take], timeout);
    RunOne(t2, MarkSnapshot(now), timeout);
    RunConcat(START, [update, take], [MarkSnapshot(now)], timeout);
    StartSound();
    RunSound(START, [update, take], timeout);
    MarkedFlag(t2.live, t2.snapshot.value, now, timeout, k);
  }
}

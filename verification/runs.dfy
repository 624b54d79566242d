// What holds after every run of the server, from the empty state on.

/** The frames on the wire agree with the two registries. */
module WireView {
  import opened Base
  import opened Wire
  import opened Serial
  import opened Messages
  import opened MacText
  import opened Server
  import opened Identity
  import Auth
  import Nodes

  /** The last JOIN_ACK verdict sent to a node: a key, or nothing for a rejection. */
  function LastVerdict(wire: seq<MeshMessage>, mac: Mac): Option<seq<byte>>
  {
    if wire == [] then None
    else
      match JoinVerdictFor(wire[|wire| - 1], mac)
      case Some(v) => Some(v)
      case None => LastVerdict(wire[..|wire| - 1], mac)
  }

  /** The last node ID sent to a node. */
  function LastNodeID(wire: seq<MeshMessage>, mac: Mac): Option<byte>
  {
    if wire == [] then None
    else
      match NodeIdFor(wire[|wire| - 1], mac)
      case Some(id) => Some(id)
      case None => LastNodeID(wire[..|wire| - 1], mac)
  }

  /** The node's last verdict carries a key exactly when the node is approved, and then its approved key. */
  ghost predicate VerdictAgrees(am: Auth.AuthMap, wire: seq<MeshMessage>, mac: Mac)
  {
    match LastVerdict(wire, mac)
    case None => Auth.ApprovedKey(am, mac) == None
    case Some(v) => if v == [] then Auth.ApprovedKey(am, mac) == None else Auth.ApprovedKey(am, mac) == Some(v)
  }

  /** A node with an ID was last told that ID. */
  ghost predicate IDAgrees(ns: Nodes.NodeMap, wire: seq<MeshMessage>, mac: Mac)
  {
    var k := MacToString(mac);
    k in ns && ns[k].nodeID > 0 ==> LastNodeID(wire, mac) == Some(ns[k].nodeID)
  }

  ghost predicate Agrees(am: Auth.AuthMap, ns: Nodes.NodeMap, wire: seq<MeshMessage>)
  {
    forall mac: Mac :: VerdictAgrees(am, wire, mac) && IDAgrees(ns, wire, mac)
  }

  lemma {:induction false} LastOfConcat(wire: seq<MeshMessage>, ms: seq<MeshMessage>, mac: Mac)
    ensures LastVerdict(wire + ms, mac) ==
            if LastVerdict(ms, mac).Some? then LastVerdict(ms, mac) else LastVerdict(wire, mac)
    ensures LastNodeID(wire + ms, mac) ==
            if LastNodeID(ms, mac).Some? then LastNodeID(ms, mac) else LastNodeID(wire, mac)
  {
    hide JoinVerdictFor, NodeIdFor;
    if ms == [] {
      assert wire + ms == wire;
    } else {
      LastOfConcat(wire, ms[..|ms| - 1], mac);
      assert (wire + ms)[..|wire + ms| - 1] == wire + ms[..|ms| - 1];
    }
  }

  lemma OneFrame(m: MeshMessage, mac: Mac)
    ensures LastVerdict([m], mac) == JoinVerdictFor(m, mac) && LastNodeID([m], mac) == NodeIdFor(m, mac)
  {
    hide JoinVerdictFor, NodeIdFor;
    assert [m][..0] == [];
  }

  /** A frame that carries neither a verdict nor an ID for anybody. */
  lemma NeutralFrame(am: Auth.AuthMap, ns: Nodes.NodeMap, wire: seq<MeshMessage>, m: MeshMessage)
    requires Agrees(am, ns, wire)
    requires forall mac: Mac :: JoinVerdictFor(m, mac) == None && NodeIdFor(m, mac) == None
    ensures Agrees(am, ns, wire + [m])
  {
    hide JoinVerdictFor, NodeIdFor, LastVerdict, LastNodeID;
    forall mac: Mac
      ensures VerdictAgrees(am, wire + [m], mac) && IDAgrees(ns, wire + [m], mac)
    {
      OneFrame(m, mac);
      LastOfConcat(wire, [m], mac);
      assert VerdictAgrees(am, wire, mac) && IDAgrees(ns, wire, mac);
    }
  }

  lemma ConfigNeutral(am: Auth.AuthMap, ns: Nodes.NodeMap, wire: seq<MeshMessage>, target: Mac, t: i32)
    requires Agrees(am, ns, wire)
    ensures Agrees(am, ns, wire + [ConfigSet(target, t)])
  {
    hide Agrees, JoinVerdictFor, NodeIdFor, ConfigSet;
    forall mac: Mac
      ensures JoinVerdictFor(ConfigSet(target, t), mac) == None && NodeIdFor(ConfigSet(target, t), mac) == None
    {
      OtherFramesCarryNothing(target, Zeros(32), t, [], 0, mac);
    }
    NeutralFrame(am, ns, wire, ConfigSet(target, t));
  }

  lemma CommandNeutral(am: Auth.AuthMap, ns: Nodes.NodeMap, wire: seq<MeshMessage>, t: i32, data: seq<byte>)
    requires Agrees(am, ns, wire) && AdapterIsOutput(t)
    ensures Agrees(am, ns, wire + [NodeData(t, data)])
  {
    hide Agrees, JoinVerdictFor, NodeIdFor, NodeData;
    forall mac: Mac
      ensures JoinVerdictFor(NodeData(t, data), mac) == None && NodeIdFor(NodeData(t, data), mac) == None
    {
      OtherFramesCarryNothing(mac, Zeros(32), t, data, 0, mac);
    }
    NeutralFrame(am, ns, wire, NodeData(t, data));
  }

  lemma HealthRequestNeutral(am: Auth.AuthMap, ns: Nodes.NodeMap, wire: seq<MeshMessage>)
    requires Agrees(am, ns, wire)
    ensures Agrees(am, ns, wire + [HealthRequest()])
  {
    hide Agrees;
    assert forall mac: Mac ::
      JoinVerdictFor(HealthRequest(), mac) == None && NodeIdFor(HealthRequest(), mac) == None;
    NeutralFrame(am, ns, wire, HealthRequest());
  }

  /** What the frames of an approval tell each node. */
  lemma ApprovalTells(target: Mac, key: Key, id: byte, inherited: i32, mac: Mac)
    ensures LastVerdict(ApprovalFrames(target, key, id, inherited), mac) == if mac == target then Some(key) else None
    ensures LastNodeID(ApprovalFrames(target, key, id, inherited), mac) ==
            if mac == target && id > 0 then Some(id) else None
  {
    hide JoinAck, NodeIdSet, ConfigSet, JoinVerdictFor, NodeIdFor, LastVerdict, LastNodeID;
    var join, set', config := JoinAck(target, key), NodeIdSet(target, id), ConfigSet(target, inherited);
    OtherFramesCarryNothing(target, key, inherited, [], id, mac);
    NodeIdSetCarries(target, id, mac);
    OneFrame(join, mac);
    OneFrame(set', mac);
    OneFrame(config, mac);
    NoFrames(mac);
    var ids := if id > 0 then [set'] else [];
    LastOfConcat([join], ids, mac);
    LastOfConcat([join] + ids, if inherited != ADAPTER_UNKNOWN then [config] else [], mac);
  }

  lemma NoFrames(mac: Mac)
    ensures LastVerdict([], mac) == None && LastNodeID([], mac) == None
  {
  }

  // ---- The steps that change a registry ----

  lemma PendedAgrees(am: Auth.AuthMap, ns: Nodes.NodeMap, wire: seq<MeshMessage>, who: Mac, key: Key, now: Time)
    requires Agrees(am, ns, wire)
    ensures Agrees(Auth.Pended(am, who, key, now), ns, wire)
  {
    hide LastVerdict, LastNodeID, Colon, MacToString;
    forall mac: Mac
      ensures VerdictAgrees(Auth.Pended(am, who, key, now), wire, mac) && IDAgrees(ns, wire, mac)
    {
      assert VerdictAgrees(am, wire, mac) && IDAgrees(ns, wire, mac);
      ColonInjective(who, mac);
    }
  }

  lemma RejectedAgrees(am: Auth.AuthMap, ns: Nodes.NodeMap, wire: seq<MeshMessage>, macStr: string, who: Mac)
    requires Auth.Canonical(am) && Agrees(am, ns, wire)
    requires Auth.Known(am, macStr) && ParseMAC(macStr) == Some(who)
    ensures Agrees(Auth.Rejected(am, macStr), ns, wire + [Rejection(who)])
  {
    hide LastVerdict, LastNodeID, Colon, ParseMAC, JoinVerdictFor, NodeIdFor, Rejection, MacToString;
    forall mac: Mac
      ensures VerdictAgrees(Auth.Rejected(am, macStr), wire + [Rejection(who)], mac)
      ensures IDAgrees(ns, wire + [Rejection(who)], mac)
    {
      assert VerdictAgrees(am, wire, mac) && IDAgrees(ns, wire, mac);
      OneFrame(Rejection(who), mac);
      LastOfConcat(wire, [Rejection(who)], mac);
      OtherFramesCarryNothing(who, Zeros(32), 0, [], 0, mac);
      ColonInjective(who, mac);
    }
  }

  lemma ApprovedVerdicts(am: Auth.AuthMap, macStr: string, now: Time, mac: Mac)
    requires Auth.Canonical(am) && Auth.Known(am, macStr)
    ensures var who := am[Normalize(macStr)];
      Auth.ApprovedKey(Auth.Approved(am, macStr, now), mac) ==
      if mac == who.mac then Some(who.publicKey) else Auth.ApprovedKey(am, mac)
  {
    hide Colon, Normalize;
    ColonInjective(am[Normalize(macStr)].mac, mac);
  }

  lemma ApprovedIDs(ns: Nodes.NodeMap, who: Mac, p: ApprovalParams, owner: Option<Nodes.NodeInfo>, mac: Mac)
    requires Consistent(ns) && (p.nodeID > 0 ==> Nodes.LookupOutcome(ns, p.nodeID, owner))
    ensures var ns', k := ApprovedNodes(ns, who, p, owner), MacToString(mac);
      if mac == who then k in ns' && ns'[k].nodeID == AssignedID(ns, p)
      else k in ns' && ns'[k].nodeID > 0 ==> k in ns && ns[k].nodeID == ns'[k].nodeID
  {
    hide MacToString, Nodes.LookupOutcome, Nodes.NextFree, Nodes.Canonical, Nodes.UniqueOwner;
    ApprovedEntry(ns, who, p, owner);
    ApprovedElsewhere(ns, who, p, owner);
    MacToStringInjectiveOn(who, mac);
  }

  lemma ApprovalAgrees(am: Auth.AuthMap, ns: Nodes.NodeMap, wire: seq<MeshMessage>, macStr: string, p: ApprovalParams,
                       owner: Option<Nodes.NodeInfo>, now: Time, inherited: i32)
    requires Auth.Canonical(am) && Auth.Known(am, macStr) && Consistent(ns) && Agrees(am, ns, wire)
    requires p.nodeID > 0 ==> Nodes.LookupOutcome(ns, p.nodeID, owner)
    ensures var who := am[Normalize(macStr)];
      Agrees(Auth.Approved(am, macStr, now), ApprovedNodes(ns, who.mac, p, owner),
             wire + ApprovalFrames(who.mac, who.publicKey, AssignedID(ns, p), inherited))
  {
    hide LastVerdict, LastNodeID, Colon, MacToString, Normalize, ApprovalFrames, ApprovedNodes, AssignedID,
         Auth.Approved, Auth.ApprovedKey, Nodes.LookupOutcome, Consistent, Auth.Canonical;
    var who := am[Normalize(macStr)];
    var frames := ApprovalFrames(who.mac, who.publicKey, AssignedID(ns, p), inherited);
    forall mac: Mac
      ensures VerdictAgrees(Auth.Approved(am, macStr, now), wire + frames, mac)
      ensures IDAgrees(ApprovedNodes(ns, who.mac, p, owner), wire + frames, mac)
    {
      assert VerdictAgrees(am, wire, mac) && IDAgrees(ns, wire, mac);
      ApprovalTells(who.mac, who.publicKey, AssignedID(ns, p), inherited, mac);
      LastOfConcat(wire, frames, mac);
      ApprovedVerdicts(am, macStr, now, mac);
      ApprovedIDs(ns, who.mac, p, owner, mac);
    }
  }

  /** Registry changes that give nobody an ID he did not have. */
  lemma SameIDsAgree(am: Auth.AuthMap, ns: Nodes.NodeMap, ns': Nodes.NodeMap, wire: seq<MeshMessage>)
    requires Agrees(am, ns, wire)
    requires forall k :: k in ns' && ns'[k].nodeID > 0 ==> k in ns && ns[k].nodeID == ns'[k].nodeID
    ensures Agrees(am, ns', wire)
  {
    hide LastVerdict, LastNodeID, MacToString, Auth.ApprovedKey;
    forall mac: Mac
      ensures VerdictAgrees(am, wire, mac) && IDAgrees(ns', wire, mac)
    {
      assert VerdictAgrees(am, wire, mac) && IDAgrees(ns, wire, mac);
    }
  }

  // ---- The bytes ----

  ghost predicate AllOutbound(wire: seq<MeshMessage>)
  {
    forall m :: m in wire ==> Outbound(m)
  }

  /** Reading back every byte written yields exactly the frames sent. */
  lemma WireBytesRoundTrip(wire: seq<MeshMessage>, out: seq<MeshMessage>)
    requires AllOutbound(wire)
    ensures AllReadable(wire) && (Reads(Stream(wire), 0, out) <==> out == wire)
    ensures forall m :: m in wire ==> 1 <= |Encode(m)| <= 84
  {
    hide Outbound, Stream, Reads, Encode;
    forall m | m in wire
      ensures Readable(m) && 1 <= |Encode(m)| <= 84
    {
      OutboundSize(m);
    }
    StreamRoundTrip(wire, 0, out);
  }

  lemma ApprovalFramesOutbound(mac: Mac, key: Key, id: byte, inherited: i32)
    ensures AllOutbound(ApprovalFrames(mac, key, id, inherited))
  {
    hide Outbound, JoinAck, NodeIdSet, ConfigSet;
    SentMessagesAreOutbound(mac, key, inherited, [], id);
  }
}

/** The invariants of the server, step by step. */
module Runs {
  import opened Base
  import opened Wire
  import opened Messages
  import opened Events
  import opened Replay
  import opened MacText
  import opened Server
  import opened Identity
  import opened WireView
  import Auth
  import Nodes
  import Commands
  import Liveness
  import Uuid

  // ---- Runs in pieces ----

  lemma {:induction false} RunConcat(c: Config, s: State, a: seq<Step>, b: seq<Step>)
    requires CanRun(c, s, a) && CanRun(c, Run(c, s, a), b)
    ensures CanRun(c, s, a + b) && Run(c, s, a + b) == Run(c, Run(c, s, a), b)
    decreases a
  {
    hide Enabled, Apply;
    if a == [] {
      assert a + b == b;
    } else {
      assert (a + b)[1..] == a[1..] + b;
      RunConcat(c, Apply(c, s, a[0]), a[1..], b);
    }
  }

  lemma RunOne(c: Config, s: State, t: Step)
    requires Enabled(s, t)
    ensures CanRun(c, s, [t]) && Run(c, s, [t]) == Apply(c, s, t)
  {
    hide Enabled, Apply;
    assert [t][1..] == [];
  }

  lemma RunSnoc(c: Config, s: State, steps: seq<Step>, t: Step)
    requires CanRun(c, s, steps) && Enabled(Run(c, s, steps), t)
    ensures CanRun(c, s, steps + [t]) && Run(c, s, steps + [t]) == Apply(c, Run(c, s, steps), t)
  {
    hide Enabled, Apply;
    RunOne(c, Run(c, s, steps), t);
    RunConcat(c, s, steps, [t]);
  }

  lemma {:induction false} RunLast(c: Config, s: State, steps: seq<Step>, t: Step)
    requires CanRun(c, s, steps + [t])
    ensures CanRun(c, s, steps) && Enabled(Run(c, s, steps), t)
    ensures Run(c, s, steps + [t]) == Apply(c, Run(c, s, steps), t)
    decreases steps
  {
    hide Enabled, Apply;
    if steps == [] {
      assert steps + [t] == [t] && [t][1..] == [];
    } else {
      assert (steps + [t])[1..] == steps[1..] + [t];
      RunLast(c, Apply(c, s, steps[0]), steps[1..], t);
    }
  }

  // ---- Inbound messages ----

  /** The version check and the replay filter let a message through. */
  predicate Passes(s: State, m: MeshMessage)
  {
    && (m.protoVersion == 0 || m.protoVersion == 2)
    && (Tracked(m) ==> |m.origin| == 6 && !Duplicate(HistoryOf(s.replay, m.origin), PairOf(m)))
  }

  /** Beyond the replay cache a message that does not pass changes nothing, and one that does is performed. */
  lemma Delivered(c: Config, s: State, m: MeshMessage, chosen: Option<string>, now: Time)
    ensures var s' := HandleMessage(c, s, m, chosen, now).0;
      var s1 := s.(replay := s'.replay);
      s' == if Passes(s, m) then Perform(c, s1, Classify(m), chosen, now).0 else s1
  {
    hide Classify, Duplicate, RecordFor;
    PerformKeepsReplay(c, s, Classify(m), chosen, now);
    if |m.origin| == 6 {
      PerformKeepsReplay(c, s.(replay := RecordFor(s.replay, m.origin, PairOf(m))), Classify(m), chosen, now);
    }
  }

  lemma PerformKeepsReplay(c: Config, s: State, a: Action, chosen: Option<string>, now: Time)
    ensures Perform(c, s, a, chosen, now).0.replay == s.replay
    ensures Perform(c, s, a, chosen, now).0.wire == s.wire
  {
    hide Auth.Pended, Nodes.Updated, Liveness.PublishHealth, Commands.Acknowledged, MacToString;
  }

  // ---- Acknowledgements ----

  /** How often a command was announced as acknowledged. */
  function Announced(events: seq<Event>, id: string): nat
  {
    if events == [] then 0
    else Announced(events[..|events| - 1], id)
         + (if events[|events| - 1].CommandAck? && events[|events| - 1].commandID == id then 1 else 0)
  }

  lemma AnnouncedAppend(events: seq<Event>, e: Event, id: string)
    ensures Announced(events + [e], id) ==
            Announced(events, id) + (if e.CommandAck? && e.commandID == id then 1 else 0)
  {
    assert (events + [e])[..|events|] == events;
  }

  /** Announced once if acknowledged, otherwise never. */
  ghost predicate AcksAccounted(cm: Commands.CommandMap, events: seq<Event>)
  {
    forall id :: Announced(events, id) == if Commands.IsAcked(cm, id) then 1 else 0
  }

  lemma OtherEventAccounted(cm: Commands.CommandMap, events: seq<Event>, e: Event)
    requires AcksAccounted(cm, events) && !e.CommandAck?
    ensures AcksAccounted(cm, events + [e])
  {
    hide Announced, Commands.IsAcked;
    forall id
      ensures Announced(events + [e], id) == if Commands.IsAcked(cm, id) then 1 else 0
    {
      AnnouncedAppend(events, e, id);
    }
  }

  lemma AckAccounted(cm: Commands.CommandMap, events: seq<Event>, t0: byte, t1: byte, id: string, now: Time, node: byte)
    requires AcksAccounted(cm, events) && Commands.TokenOutcome(cm, t0, t1, Some(id))
    ensures AcksAccounted(Commands.Acknowledged(cm, id, now), events + [CommandAck(id, node)])
  {
    hide Announced, Commands.IsAcked, Commands.TokenOutcome, Commands.Acknowledged;
    forall other
      ensures Announced(events + [CommandAck(id, node)], other) ==
        if Commands.IsAcked(Commands.Acknowledged(cm, id, now), other) then 1 else 0
    {
      AnnouncedAppend(events, CommandAck(id, node), other);
      Commands.TokenAcksOne(cm, t0, t1, id, now, other);
    }
  }

  lemma StoreAccounted(cm: Commands.CommandMap, events: seq<Event>, cmd: Commands.Command)
    requires AcksAccounted(cm, events) && cmd.id !in cm && cmd.status.Pending?
    ensures AcksAccounted(Commands.Stored(cm, cmd), events)
  {
    hide Announced, Commands.IsAcked, Commands.Stored;
    forall id
      ensures Announced(events, id) == if Commands.IsAcked(Commands.Stored(cm, cmd), id) then 1 else 0
    {
      Commands.AddKeepsAcks(cm, cmd, id);
    }
  }

  lemma {:induction false} SweepAccounted(cm: Commands.CommandMap, l: Liveness.Live, snapshot: seq<Nodes.NodeInfo>,
                                          now: Time, timeout: Timeout)
    requires AcksAccounted(cm, l.events)
    ensures AcksAccounted(cm, Liveness.MarkExpired(l, snapshot, now, timeout).events)
  {
    hide AcksAccounted, Expired;
    if snapshot == [] {
    } else {
      var n := |snapshot| - 1;
      SweepAccounted(cm, l, snapshot[..n], now, timeout);
      var l' := Liveness.MarkExpired(l, snapshot[..n], now, timeout);
      var node := snapshot[n];
      OtherEventAccounted(cm, l'.events, NodeOffline(node.macString, node.nodeID, node.name, node.lastSeen));
    }
  }

  lemma HealthAccounted(cm: Commands.CommandMap, l: Liveness.Live, n: Nodes.NodeInfo, now: Time, timeout: Timeout)
    requires AcksAccounted(cm, l.events)
    ensures AcksAccounted(cm, Liveness.PublishHealth(l, n, now, timeout).events)
  {
    hide AcksAccounted;
    var e := Liveness.HealthEvent(n, now, timeout);
    OtherEventAccounted(cm, l.events, e);
    OtherEventAccounted(cm, l.events + [e], NodeOnline(n.macString, n.nodeID, n.name));
  }

  // ---- The invariant ----

  ghost predicate ReplaySpaced(hs: Histories)
  {
    forall mac :: mac in hs ==> Spaced(hs[mac])
  }

  ghost predicate Invariant(c: Config, s: State)
  {
    && Auth.Canonical(s.auth)
    && Consistent(s.nodes)
    && AcksAccounted(s.commands, s.live.events)
    && Liveness.AllInStep(s.live)
    && ReplaySpaced(s.replay)
    && AllOutbound(s.wire)
    && (c.attached ==> Agrees(s.auth, s.nodes, s.wire))
  }

  lemma InitialInvariant(c: Config)
    ensures Invariant(c, INITIAL)
  {
    hide MacToString, Colon;
    Liveness.StartInStep();
    EmptyConsistent();
    forall mac: Mac
      ensures VerdictAgrees(map[], [], mac) && IDAgrees(map[], [], mac)
    {
    }
  }

  /** Publishing an event that is neither a transition nor an acknowledgement. */
  lemma PublishInvariant(c: Config, s: State, e: Event)
    requires Invariant(c, s) && !e.NodeOnline? && !e.NodeOffline? && !e.CommandAck?
    ensures Invariant(c, Publish(s, e))
  {
    hide Auth.Canonical, Consistent, AcksAccounted, Liveness.AllInStep, ReplaySpaced, AllOutbound, Agrees;
    OtherEventAccounted(s.commands, s.live.events, e);
    Liveness.OtherEventInStep(s.live, e);
  }

  lemma ReportInvariant(c: Config, s: State, r: HealthReport, now: Time)
    requires Invariant(c, s)
    ensures Invariant(c, ReportHealth(c, s, r, now))
  {
    hide Auth.Canonical, Consistent, AcksAccounted, Liveness.AllInStep, ReplaySpaced, AllOutbound, Agrees,
         Liveness.PublishHealth, MacToString;
    var ns := Nodes.Updated(s.nodes, r.mac, r.adapterType, r.uptime, r.hopCount, now);
    UpdatedConsistent(s.nodes, r.mac, r.adapterType, r.uptime, r.hopCount, now);
    HealthAccounted(s.commands, s.live, ns[MacToString(r.mac)], now, c.timeout);
    Liveness.PublishHealthInStep(s.live, ns[MacToString(r.mac)], now, c.timeout);
    if c.attached {
      SameIDsAgree(s.auth, s.nodes, ns, s.wire);
    }
    LiveOnly(s.live, ns[MacToString(r.mac)], now, c.timeout);
  }

  lemma LiveOnly(l: Liveness.Live, n: Nodes.NodeInfo, now: Time, timeout: Timeout)
    ensures Liveness.PublishHealth(l, n, now, timeout).flags.Keys == l.flags.Keys + {n.macString}
  {
  }

  lemma AckInvariant(c: Config, s: State, t0: byte, t1: byte, chosen: Option<string>, now: Time)
    requires Invariant(c, s) && Commands.TokenOutcome(s.commands, t0, t1, chosen)
    ensures Invariant(c, AckCommand(s, chosen, now))
  {
    hide Auth.Canonical, Consistent, AcksAccounted, Liveness.AllInStep, ReplaySpaced, AllOutbound, Agrees,
         Commands.TokenOutcome, Commands.Acknowledged;
    if chosen.Some? && chosen.value in s.commands {
      var node := s.commands[chosen.value].nodeID;
      AckAccounted(s.commands, s.live.events, t0, t1, chosen.value, now, node);
      Liveness.OtherEventInStep(s.live, CommandAck(chosen.value, node));
    }
  }

  lemma EnrollInvariant(c: Config, s: State, mac: Mac, key: Key, now: Time)
    requires Invariant(c, s)
    ensures Invariant(c, s.(auth := Auth.Pended(s.auth, mac, key, now)))
  {
    hide Auth.Canonical, Auth.Pended, Consistent, AcksAccounted, Liveness.AllInStep, ReplaySpaced, AllOutbound, Agrees;
    Auth.CallCanonical(s.auth, Auth.AddPending(mac, key, now));
    if c.attached {
      PendedAgrees(s.auth, s.nodes, s.wire, mac, key, now);
    }
  }

  lemma PerformInvariant(c: Config, s: State, a: Action, chosen: Option<string>, now: Time)
    requires Invariant(c, s)
    requires a.AckToken? ==> Commands.TokenOutcome(s.commands, a.t0, a.t1, chosen)
    ensures Invariant(c, Perform(c, s, a, chosen, now).0)
  {
    hide Invariant, ReportHealth, AckCommand, Publish, Auth.Pended, Auth.IsApproved, Commands.TokenOutcome, MacToString;
    match a
    case Report(r) => ReportInvariant(c, s, r, now);
    case AckToken(t0, t1) => AckInvariant(c, s, t0, t1, chosen, now);
    case Enroll(mac, key) => EnrollInvariant(c, s, mac, key, now);
    case MotionSeen(origin) =>
      var k := MacToString(origin);
      if k in s.nodes {
        PublishInvariant(c, s, Motion(s.nodes[k].nodeID, s.nodes[k].name, s.nodes[k].zone, s.nodes[k].hopCount));
      }
    case _ =>
  }

  lemma ReplayInvariant(c: Config, s: State, m: MeshMessage, chosen: Option<string>, now: Time)
    requires Invariant(c, s)
    ensures Invariant(c, s.(replay := HandleMessage(c, s, m, chosen, now).0.replay))
  {
    hide Auth.Canonical, Consistent, AcksAccounted, Liveness.AllInStep, AllOutbound, Agrees, Classify, Perform,
         Duplicate, Spaced, Replay.Record;
    PerformKeepsReplay(c, s, Classify(m), chosen, now);
    if Tracked(m) && |m.origin| == 6 {
      var hs := RecordFor(s.replay, m.origin, PairOf(m));
      PerformKeepsReplay(c, s.(replay := hs), Classify(m), chosen, now);
      var h := HistoryOf(s.replay, m.origin);
      EveryHistorySpaced([]);
      assert RecordAll([]) == [];
      RecordSpaced(h, PairOf(m));
    }
  }

  lemma DeliverInvariant(c: Config, s: State, m: MeshMessage, chosen: Option<string>, now: Time)
    requires Invariant(c, s) && Enabled(s, Deliver(m, chosen, now))
    ensures Invariant(c, HandleMessage(c, s, m, chosen, now).0)
  {
    hide Invariant, HandleMessage, Perform, Classify, Commands.TokenOutcome;
    ReplayInvariant(c, s, m, chosen, now);
    Delivered(c, s, m, chosen, now);
    var s1 := s.(replay := HandleMessage(c, s, m, chosen, now).0.replay);
    PerformInvariant(c, s1, Classify(m), chosen, now);
  }

  // ---- Enrollment and administration ----

  lemma SendOutbound(wire: seq<MeshMessage>, ms: seq<MeshMessage>)
    requires AllOutbound(wire) && AllOutbound(ms)
    ensures AllOutbound(wire + ms)
  {
    hide Outbound;
  }

  lemma ApproveInvariant(c: Config, s: State, macStr: string, p: ApprovalParams, owner: Option<Nodes.NodeInfo>,
                         now: Time)
    requires Invariant(c, s) && (p.nodeID > 0 ==> Nodes.LookupOutcome(s.nodes, p.nodeID, owner))
    ensures Invariant(c, Approve(c, s, macStr, p, owner, now))
  {
    hide Auth.Canonical, Consistent, AcksAccounted, Liveness.AllInStep, ReplaySpaced, AllOutbound, Agrees,
         ApprovedNodes, ApprovalFrames, Normalize, MacToString, Nodes.LookupOutcome, Nodes.NextFree, InheritedType;
    if Auth.Known(s.auth, macStr) {
      var who := s.auth[Normalize(macStr)];
      var inherited := InheritedType(p, Displaced(p, who.mac, owner));
      var frames := ApprovalFrames(who.mac, who.publicKey, AssignedID(s.nodes, p), inherited);
      Auth.CallCanonical(s.auth, Auth.Approve(macStr, now));
      ApprovedConsistent(s.nodes, who.mac, p, owner);
      ApprovalFramesOutbound(who.mac, who.publicKey, AssignedID(s.nodes, p), inherited);
      SendOutbound(s.wire, frames);
      if c.attached {
        ApprovalAgrees(s.auth, s.nodes, s.wire, macStr, p, owner, now, inherited);
      }
      var s1 := s.(auth := Auth.Approved(s.auth, macStr, now), nodes := ApprovedNodes(s.nodes, who.mac, p, owner),
                   wire := if c.attached then s.wire + frames else s.wire);
      assert Invariant(c, s1);
      var entry := s1.nodes[MacToString(who.mac)];
      PublishInvariant(c, s1, Enrolled(entry.nodeID, entry.name,
                                       if p.adapterType == "" then "unknown" else p.adapterType));
    }
  }

  lemma RejectInvariant(c: Config, s: State, macStr: string)
    requires Invariant(c, s)
    ensures Invariant(c, Reject(c, s, macStr))
  {
    hide Auth.Canonical, Consistent, AcksAccounted, Liveness.AllInStep, ReplaySpaced, AllOutbound, Agrees,
         ParseMAC, Normalize, Rejection, Outbound, Auth.Rejected;
    match ParseMAC(macStr)
    case None =>
    case Some(who) =>
      if Auth.Known(s.auth, macStr) {
        Auth.CallCanonical(s.auth, Auth.Reject(macStr));
        SentMessagesAreOutbound(who, Zeros(32), 0, [], 0);
        OneOutbound(Rejection(who));
        SendOutbound(s.wire, [Rejection(who)]);
        if c.attached {
          RejectedAgrees(s.auth, s.nodes, s.wire, macStr, who);
        }
      }
  }

  lemma OneOutbound(m: MeshMessage)
    requires Outbound(m)
    ensures AllOutbound([m])
  {
    hide Outbound;
  }

  lemma ConfigureInvariant(c: Config, s: State, target: Mac, t: i32)
    requires Invariant(c, s)
    ensures Invariant(c, Configure(c, s, target, t))
  {
    hide Auth.Canonical, Consistent, AcksAccounted, Liveness.AllInStep, ReplaySpaced, AllOutbound, Agrees,
         ConfigSet, Outbound;
    SentMessagesAreOutbound(target, Zeros(32), t, [], 0);
    OneOutbound(ConfigSet(target, t));
    SendOutbound(s.wire, [ConfigSet(target, t)]);
    if c.attached {
      ConfigNeutral(s.auth, s.nodes, s.wire, target, t);
    }
  }

  lemma PatchInvariant(c: Config, s: State, id: byte, owner: Option<Nodes.NodeInfo>, name: Option<string>,
                       zone: Option<string>, adapterType: Option<string>)
    requires Invariant(c, s) && id > 0 && Nodes.LookupOutcome(s.nodes, id, owner)
    ensures Invariant(c, UpdateNode(c, s, owner, name, zone, adapterType))
  {
    hide Auth.Canonical, AcksAccounted, Liveness.AllInStep, ReplaySpaced, AllOutbound, Agrees, Consistent,
         MacToString, Configure, AdapterTypeFromString, Nodes.LookupOutcome;
    if owner.Some? {
      var n := owner.value;
      var name', zone' := if name.Some? then name.value else n.name, if zone.Some? then zone.value else n.zone;
      ReassignedConsistent(s.nodes, n, id, name', zone');
      OwnerKey(s.nodes, id, n);
      var s' := s.(nodes := Nodes.Assigned(s.nodes, n.mac, n.nodeID, name', zone'));
      if c.attached {
        SameIDsAgree(s.auth, s.nodes, s'.nodes, s.wire);
      }
      assert Invariant(c, s');
      if adapterType.Some? && AdapterTypeFromString(adapterType.value).Some? {
        ConfigureInvariant(c, s', n.mac, AdapterTypeFromString(adapterType.value).value);
      }
    }
  }

  lemma RemoveInvariant(c: Config, s: State, owner: Option<Nodes.NodeInfo>)
    requires Invariant(c, s)
    ensures Invariant(c, DeleteNode(s, owner))
  {
    hide Auth.Canonical, Consistent, AcksAccounted, Liveness.AllInStep, ReplaySpaced, AllOutbound, Agrees, MacToString;
    if owner.Some? {
      RemovedConsistent(s.nodes, owner.value.mac);
      if c.attached {
        SameIDsAgree(s.auth, s.nodes, Nodes.Removed(s.nodes, owner.value.mac), s.wire);
      }
    }
  }

  lemma CommandInvariant(c: Config, s: State, id: byte, owner: Option<Nodes.NodeInfo>, action: string,
                         colour: seq<byte>, u: UuidBytes, now: Time)
    requires Invariant(c, s) && Uuid.Format(u) !in s.commands
    ensures Invariant(c, NodeCommand(c, s, id, owner, action, colour, u, now))
  {
    hide Auth.Canonical, Consistent, AcksAccounted, Liveness.AllInStep, ReplaySpaced, AllOutbound, Agrees,
         Uuid.Format, Commands.Head, Commands.Payload, Commands.Stored, NodeData, Outbound;
    if owner.Some? && AdapterIsOutput(owner.value.adapterType) && Commands.Head(c.ops, action, colour).Ok? {
      Commands.HeadIsShort(c.ops, action, colour);
      var p := Commands.Payload(Commands.Head(c.ops, action, colour).value, u);
      var t := owner.value.adapterType;
      StoreAccounted(s.commands, s.live.events,
                     Commands.Command(Uuid.Format(u), id, action, now, Commands.Pending, None));
      SentMessagesAreOutbound(Zeros(6), Zeros(32), t, p, 0);
      OneOutbound(NodeData(t, p));
      SendOutbound(s.wire, [NodeData(t, p)]);
      if c.attached {
        CommandNeutral(s.auth, s.nodes, s.wire, t, p);
      }
    }
  }

  lemma SweepInvariant(c: Config, s: State, order: seq<string>, now: Time)
    requires Invariant(c, s) && IsOrder(order, s.nodes.Keys)
    ensures Invariant(c, Sweep(c, s, order, now))
  {
    hide Auth.Canonical, Consistent, AcksAccounted, Liveness.AllInStep, ReplaySpaced, AllOutbound, Agrees,
         Liveness.MarkExpired, Liveness.Snapshot;
    var snapshot := Liveness.Snapshot(s.nodes, order);
    SweepAccounted(s.commands, s.live, snapshot, now, c.timeout);
    Liveness.MarkExpiredInStep(s.live, snapshot, now, c.timeout);
  }

  lemma HealthRequestInvariant(c: Config, s: State)
    requires Invariant(c, s)
    ensures Invariant(c, Send(c, s, [HealthRequest()]))
  {
    hide Auth.Canonical, Consistent, AcksAccounted, Liveness.AllInStep, ReplaySpaced, AllOutbound, Agrees,
         HealthRequest, Outbound;
    SentMessagesAreOutbound(Zeros(6), Zeros(32), 0, [], 0);
    OneOutbound(HealthRequest());
    SendOutbound(s.wire, [HealthRequest()]);
    if c.attached {
      HealthRequestNeutral(s.auth, s.nodes, s.wire);
    }
  }

  lemma StepInvariant(c: Config, s: State, t: Step)
    requires Invariant(c, s) && Enabled(s, t)
    ensures Invariant(c, Apply(c, s, t))
  {
    hide Invariant, HandleMessage, Approve, Reject, UpdateNode, DeleteNode, NodeCommand, Sweep, Configure, Send,
         Classify, Commands.TokenOutcome, Nodes.LookupOutcome;
    match t
    case Deliver(m, chosen, now) => DeliverInvariant(c, s, m, chosen, now);
    case ApproveEnrollment(macStr, p, owner, now) => ApproveInvariant(c, s, macStr, p, owner, now);
    case RejectEnrollment(macStr) => RejectInvariant(c, s, macStr);
    case PatchNode(id, owner, name, zone, adapterType) => PatchInvariant(c, s, id, owner, name, zone, adapterType);
    case RemoveNode(_, owner) => RemoveInvariant(c, s, owner);
    case IssueCommand(id, owner, action, colour, u, now) =>
      CommandInvariant(c, s, id, owner, action, colour, u, now);
    case SweepOffline(order, now) => SweepInvariant(c, s, order, now);
    case ConfigureNode(target, newType) => ConfigureInvariant(c, s, target, newType);
    case RequestHealth => HealthRequestInvariant(c, s);
  }

  /** The invariant survives every run. */
  lemma {:induction false} RunInvariant(c: Config, s: State, steps: seq<Step>)
    requires Invariant(c, s) && CanRun(c, s, steps)
    ensures Invariant(c, Run(c, s, steps))
    decreases steps
  {
    hide Invariant, Enabled, Apply;
    if steps == [] {
    } else {
      StepInvariant(c, s, steps[0]);
      RunInvariant(c, Apply(c, s, steps[0]), steps[1..]);
    }
  }
}

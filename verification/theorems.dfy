// The main results about whole runs of the server.

module Theorems {
  import opened Base
  import opened Wire
  import opened Messages
  import opened Events
  import opened MacText
  import opened Server
  import opened Identity
  import opened WireView
  import opened Runs
  import Auth
  import Nodes
  import Commands
  import Liveness
  import Serial
  import Uuid

  lemma Reachable(c: Config, steps: seq<Step>)
    requires CanRun(c, INITIAL, steps)
    ensures Invariant(c, Run(c, INITIAL, steps))
  {
    hide Invariant, CanRun, Run;
    InitialInvariant(c);
    RunInvariant(c, INITIAL, steps);
  }

  /** After any run every node's last verdict and last ID on the wire are those of the registries. */
  lemma WireAgreesWithRegistries(c: Config, steps: seq<Step>, mac: Mac)
    requires CanRun(c, INITIAL, steps) && c.attached
    ensures var s := Run(c, INITIAL, steps);
      VerdictAgrees(s.auth, s.wire, mac) && IDAgrees(s.nodes, s.wire, mac)
  {
    hide CanRun, Run, VerdictAgrees, IDAgrees;
    Reachable(c, steps);
  }

  /** The bytes written over any run read back as the frames sent, each at most 84 bytes long. */
  lemma WireBytesReadBack(c: Config, steps: seq<Step>, out: seq<MeshMessage>)
    requires CanRun(c, INITIAL, steps)
    ensures var wire := Run(c, INITIAL, steps).wire;
      && Serial.AllReadable(wire) && (Serial.Reads(Serial.Stream(wire), 0, out) <==> out == wire)
      && forall m :: m in wire ==> 1 <= |Encode(m)| <= 84
  {
    hide CanRun, Run, AllOutbound, Encode;
    Reachable(c, steps);
    WireBytesRoundTrip(Run(c, INITIAL, steps).wire, out);
  }

  /** After any run a node ID has at most one active owner, so a lookup does not depend on the order of the map. */
  lemma LookupsAreDeterministic(c: Config, steps: seq<Step>, id: byte, r: Option<Nodes.NodeInfo>,
                                r': Option<Nodes.NodeInfo>)
    requires CanRun(c, INITIAL, steps) && id > 0
    requires Nodes.LookupOutcome(Run(c, INITIAL, steps).nodes, id, r)
    requires Nodes.LookupOutcome(Run(c, INITIAL, steps).nodes, id, r')
    ensures Nodes.UniqueOwner(Run(c, INITIAL, steps).nodes) && r == r'
  {
    hide CanRun, Run, Nodes.LookupOutcome, Nodes.UniqueOwner;
    Reachable(c, steps);
    Nodes.LookupDeterministic(Run(c, INITIAL, steps).nodes, id, r, r');
  }

  /** After any run each command was announced once if it is acknowledged and never otherwise. */
  lemma CommandsAnnouncedOnce(c: Config, steps: seq<Step>, id: string)
    requires CanRun(c, INITIAL, steps)
    ensures var s := Run(c, INITIAL, steps);
      Announced(s.live.events, id) == if Commands.IsAcked(s.commands, id) then 1 else 0
  {
    hide CanRun, Run, Announced, Commands.IsAcked;
    Reachable(c, steps);
  }

  /** After any run each node's transitions alternate from node_online on, and its flag equals the last one. */
  lemma TransitionsAlternate(c: Config, steps: seq<Step>, node: string)
    requires CanRun(c, INITIAL, steps)
    ensures Liveness.InStep(Run(c, INITIAL, steps).live, node)
  {
    hide CanRun, Run, Liveness.InStep;
    Reachable(c, steps);
  }

  // ---- Acknowledgements are final ----

  lemma PerformKeepsAck(c: Config, s: State, a: Action, chosen: Option<string>, now: Time, id: string)
    requires Commands.IsAcked(s.commands, id)
    ensures Commands.IsAcked(Perform(c, s, a, chosen, now).0.commands, id)
  {
    hide Auth.Pended, Nodes.Updated, Liveness.PublishHealth, MacToString;
  }

  lemma StepKeepsAck(c: Config, s: State, t: Step, id: string)
    requires Enabled(s, t) && Commands.IsAcked(s.commands, id)
    ensures Commands.IsAcked(Apply(c, s, t).commands, id)
  {
    hide HandleMessage, Auth.Approved, Auth.Rejected, ApprovedNodes, ApprovalFrames, Uuid.Format, Commands.Head,
         Commands.Payload, Liveness.MarkExpired, Classify, Perform, Nodes.Assigned, Nodes.Removed, Normalize, ParseMAC;
    if t.Deliver? {
      Delivered(c, s, t.m, t.chosen, t.now);
      var s1 := s.(replay := HandleMessage(c, s, t.m, t.chosen, t.now).0.replay);
      PerformKeepsAck(c, s1, Classify(t.m), t.chosen, t.now, id);
    }
  }

  /** An acknowledged command stays acknowledged. */
  lemma {:induction false} AcksAreFinal(c: Config, s: State, steps: seq<Step>, id: string)
    requires CanRun(c, s, steps) && Commands.IsAcked(s.commands, id)
    ensures Commands.IsAcked(Run(c, s, steps).commands, id)
    decreases steps
  {
    hide Commands.IsAcked, Enabled, Apply;
    if steps == [] {
    } else {
      StepKeepsAck(c, s, steps[0], id);
      AcksAreFinal(c, Apply(c, s, steps[0]), steps[1..], id);
    }
  }

  lemma CommandSent(c: Config, s: State, t: Step)
    requires t.IssueCommand? && Enabled(s, t) && c.attached && Apply(c, s, t).wire != s.wire
    ensures var s' := Apply(c, s, t);
      && s'.wire != [] && |s'.wire[|s'.wire| - 1].data| == MAX_DATA
      && Uuid.Format(t.uuid) in s'.commands && s'.commands[Uuid.Format(t.uuid)].status.Pending?
      && s'.commands[Uuid.Format(t.uuid)].nodeID == t.id
      && exists head :: |head| <= MAX_DATA - 2 && s'.wire[|s'.wire| - 1].data == Commands.Payload(head, t.uuid)
  {
    hide Commands.Head, Commands.Payload, Uuid.Format, Nodes.LookupOutcome;
    var head := Commands.Head(c.ops, t.action, t.colour);
    Commands.HeadIsShort(c.ops, t.action, t.colour);
    PaddedWhole(Commands.Payload(head.value, t.uuid));
  }

  lemma PaddedWhole(p: seq<byte>)
    requires |p| == MAX_DATA
    ensures Padded(p) == p
  {
  }

  /** An OP_COMMAND_ACK message whose payload begins with the echo of a sent frame. */
  predicate Echoes(m: MeshMessage, frame: MeshMessage)
    requires |frame.data| == MAX_DATA
  {
    && m.messageType == 0 && m.dataType == 1
    && |m.data| >= 3 && m.data[..3] == Commands.EchoOf(frame.data)
  }

  predicate EchoesLast(m: MeshMessage, wire: seq<MeshMessage>)
  {
    wire != [] && |wire[|wire| - 1].data| == MAX_DATA && Echoes(m, wire[|wire| - 1])
  }

  lemma EchoClassified(m: MeshMessage, frame: MeshMessage)
    requires |frame.data| == MAX_DATA && Echoes(m, frame)
    ensures var echo := Commands.EchoOf(frame.data); Classify(m) == AckToken(echo[1], echo[2])
  {
    assert m.data[0] == m.data[..3][0] && m.data[1] == m.data[..3][1] && m.data[2] == m.data[..3][2];
  }

  /** The command stays stored, for the same node. */
  ghost predicate KeepsCommand(cm: Commands.CommandMap, cm': Commands.CommandMap, id: string)
  {
    id in cm ==> id in cm' && cm'[id].nodeID == cm[id].nodeID
  }

  lemma PerformKeepsCommand(c: Config, s: State, a: Action, chosen: Option<string>, now: Time, id: string)
    ensures KeepsCommand(s.commands, Perform(c, s, a, chosen, now).0.commands, id)
  {
    hide Auth.Pended, Nodes.Updated, Liveness.PublishHealth, MacToString;
  }

  lemma StepKeepsCommand(c: Config, s: State, t: Step, id: string)
    requires Enabled(s, t)
    ensures KeepsCommand(s.commands, Apply(c, s, t).commands, id)
  {
    hide HandleMessage, Auth.Approved, Auth.Rejected, ApprovedNodes, ApprovalFrames, Uuid.Format, Commands.Head,
         Commands.Payload, Liveness.MarkExpired, Classify, Perform, Nodes.Assigned, Nodes.Removed, Normalize, ParseMAC;
    if t.Deliver? {
      Delivered(c, s, t.m, t.chosen, t.now);
      var s1 := s.(replay := HandleMessage(c, s, t.m, t.chosen, t.now).0.replay);
      PerformKeepsCommand(c, s1, Classify(t.m), t.chosen, t.now, id);
    }
  }

  lemma {:induction false} RunKeepsCommand(c: Config, s: State, steps: seq<Step>, id: string)
    requires CanRun(c, s, steps)
    ensures KeepsCommand(s.commands, Run(c, s, steps).commands, id)
    decreases steps
  {
    hide Enabled, Apply;
    if steps == [] {
    } else {
      StepKeepsCommand(c, s, steps[0], id);
      RunKeepsCommand(c, Apply(c, s, steps[0]), steps[1..], id);
    }
  }

  /**
   * However long after a command was sent, a node that echoes the end of its frame acknowledges exactly that command
   * and the acknowledgement is announced with the command's node, provided the command is still pending and no other
   * pending one shares the last two UUID bytes.
   */
  lemma EchoAcknowledges(c: Config, s: State, t: Step, between: seq<Step>, m: MeshMessage, chosen: Option<string>,
                         now: Time)
    requires t.IssueCommand? && Enabled(s, t) && c.attached && Apply(c, s, t).wire != s.wire
    requires EchoesLast(m, Apply(c, s, t).wire) && CanRun(c, Apply(c, s, t), between)
    requires var s2 := Run(c, Apply(c, s, t), between); var id := Uuid.Format(t.uuid);
      && Passes(s2, m) && Enabled(s2, Deliver(m, chosen, now))
      && (id in s2.commands ==> s2.commands[id].status.Pending?)
      && !exists other :: Commands.SharesToken(s2.commands, id, other)
    ensures var s2 := Run(c, Apply(c, s, t), between); var id := Uuid.Format(t.uuid);
      var s3 := Apply(c, s2, Deliver(m, chosen, now));
      && !Commands.IsAcked(s2.commands, id)
      && id in s2.commands
      && s3.commands == s2.commands[id := s2.commands[id].(status := Commands.Acked, ackedAt := Some(now))]
      && s3.live.events == s2.live.events + [CommandAck(id, t.id)]
  {
    hide NodeCommand, Run, CanRun, HandleMessage, Passes, Uuid.Format, Commands.TokenOutcome, Commands.SharesToken,
         Classify, Echoes, Commands.Payload, Commands.EchoOf, Nodes.LookupOutcome;
    var s1 := Apply(c, s, t);
    var s2 := Run(c, s1, between);
    var frame := s1.wire[|s1.wire| - 1];
    CommandSent(c, s, t);
    RunKeepsCommand(c, s1, between, Uuid.Format(t.uuid));
    var head :| |head| <= MAX_DATA - 2 && frame.data == Commands.Payload(head, t.uuid);
    Commands.EchoFindsCommand(s2.commands, head, t.uuid);
    EchoClassified(m, frame);
    Delivered(c, s2, m, chosen, now);
    assert chosen == Some(Uuid.Format(t.uuid));
  }

  // ---- Approved keys ----

  /** The node a rejection names. */
  predicate Rejects(t: Step, mac: Mac)
  {
    t.RejectEnrollment? && ParseMAC(t.macStr) == Some(mac)
  }

  lemma PerformKeepsKey(c: Config, s: State, a: Action, chosen: Option<string>, now: Time, mac: Mac, key: Key)
    requires Auth.Canonical(s.auth) && Auth.ApprovedKey(s.auth, mac) == Some(key)
    ensures Auth.ApprovedKey(Perform(c, s, a, chosen, now).0.auth, mac) == Some(key)
  {
    hide Auth.Canonical, Auth.ApprovedKey, Auth.Pended, Auth.IsApproved, Nodes.Updated, Liveness.PublishHealth,
         Commands.Acknowledged, MacToString;
    if a.Enroll? {
      PendKeepsKey(s.auth, a.mac, a.key, now, mac, key);
    }
  }

  lemma PendKeepsKey(am: Auth.AuthMap, who: Mac, k: Key, now: Time, mac: Mac, key: Key)
    requires Auth.Canonical(am) && Auth.ApprovedKey(am, mac) == Some(key)
    ensures Auth.ApprovedKey(Auth.Pended(am, who, k, now), mac) == Some(key)
  {
    hide Auth.Canonical, Auth.ApprovedKey, Auth.Pended;
    Auth.CallKeepsKey(am, Auth.AddPending(who, k, now), mac, key);
  }

  lemma RejectKeepsKey(am: Auth.AuthMap, macStr: string, mac: Mac, key: Key)
    requires Auth.Canonical(am) && Auth.ApprovedKey(am, mac) == Some(key) && ParseMAC(macStr) != Some(mac)
    ensures Auth.ApprovedKey(Auth.Rejected(am, macStr), mac) == Some(key)
  {
    hide Auth.ApprovedKey, ParseMAC, Colon, Auth.Canonical, Normalize;
    if Auth.Known(am, macStr) {
      Auth.KnownParses(am, macStr);
      Auth.CallKeepsKey(am, Auth.Reject(macStr), mac, key);
    }
  }

  lemma StepKeepsKey(c: Config, s: State, t: Step, mac: Mac, key: Key)
    requires Invariant(c, s) && Enabled(s, t) && Auth.ApprovedKey(s.auth, mac) == Some(key) && !Rejects(t, mac)
    ensures Auth.ApprovedKey(Apply(c, s, t).auth, mac) == Some(key)
  {
    hide HandleMessage, Auth.ApprovedKey, Auth.Approved, Auth.Rejected, Auth.Canonical, ApprovedNodes, ApprovalFrames,
         Uuid.Format, Commands.Head, Commands.Payload, Liveness.MarkExpired, Classify, Perform, Nodes.Assigned,
         Nodes.Removed, Normalize, ParseMAC, Auth.Known, Consistent, AcksAccounted, Liveness.AllInStep, ReplaySpaced,
         AllOutbound, Agrees, Nodes.LookupOutcome, Commands.TokenOutcome;
    match t {
      case Deliver(m, chosen, now) =>
        Delivered(c, s, m, chosen, now);
        var s1 := s.(replay := HandleMessage(c, s, m, chosen, now).0.replay);
        PerformKeepsKey(c, s1, Classify(m), chosen, now, mac, key);
      case ApproveEnrollment(macStr, _, _, now) =>
        Auth.CallKeepsKey(s.auth, Auth.Approve(macStr, now), mac, key);
      case RejectEnrollment(macStr) => RejectKeepsKey(s.auth, macStr, mac, key);
      case _ =>
    }
  }

  ghost predicate NeverRejects(steps: seq<Step>, mac: Mac)
  {
    forall t :: t in steps ==> !Rejects(t, mac)
  }

  /** An approved key stays the node's key until somebody rejects that node: no message can change it. */
  lemma {:induction false} ApprovedKeyPersists(c: Config, s: State, steps: seq<Step>, mac: Mac, key: Key)
    requires Invariant(c, s) && CanRun(c, s, steps) && NeverRejects(steps, mac)
    requires Auth.ApprovedKey(s.auth, mac) == Some(key)
    ensures Auth.ApprovedKey(Run(c, s, steps).auth, mac) == Some(key)
    decreases steps
  {
    hide Auth.ApprovedKey, Enabled, Apply, Invariant, Rejects;
    if steps == [] {
    } else {
      assert steps[0] in steps;
      StepKeepsKey(c, s, steps[0], mac, key);
      StepInvariant(c, s, steps[0]);
      ApprovedKeyPersists(c, Apply(c, s, steps[0]), steps[1..], mac, key);
    }
  }

  /** The call on the trust registry that a step amounts to, if any. */
  function CallOf(s: State, t: Step): seq<Auth.AuthCall>
  {
    match t
    case Deliver(m, _, now) =>
      if Passes(s, m) && Classify(m).Enroll? then [Auth.AddPending(Classify(m).mac, Classify(m).key, now)] else []
    case ApproveEnrollment(macStr, _, _, now) => [Auth.Approve(macStr, now)]
    case RejectEnrollment(macStr) => if ParseMAC(macStr).Some? then [Auth.Reject(macStr)] else []
    case _ => []
  }

  function CallsOf(c: Config, s: State, steps: seq<Step>): seq<Auth.AuthCall>
    requires CanRun(c, s, steps)
    decreases steps
  {
    if steps == [] then [] else CallOf(s, steps[0]) + CallsOf(c, Apply(c, s, steps[0]), steps[1..])
  }

  lemma PerformCalls(c: Config, s: State, a: Action, chosen: Option<string>, now: Time)
    ensures Perform(c, s, a, chosen, now).0.auth ==
            if a.Enroll? then Auth.Pended(s.auth, a.mac, a.key, now) else s.auth
  {
    hide Auth.Pended, Auth.IsApproved, Nodes.Updated, Liveness.PublishHealth, Commands.Acknowledged, MacToString;
  }

  lemma OneCall(am: Auth.AuthMap, call: Auth.AuthCall)
    ensures Auth.Calls(am, [call]) == Auth.Call(am, call) && Auth.Calls(am, []) == am
  {
    assert [call][..0] == [];
  }

  lemma StepCalls(c: Config, s: State, t: Step)
    requires Enabled(s, t)
    ensures Apply(c, s, t).auth == Auth.Calls(s.auth, CallOf(s, t))
  {
    hide HandleMessage, Auth.Calls, ApprovedNodes, ApprovalFrames, Uuid.Format, Commands.Head, Commands.Payload,
         Liveness.MarkExpired, Classify, Perform, Passes, Nodes.Assigned, Nodes.Removed, Normalize, ParseMAC,
         Nodes.LookupOutcome, Commands.TokenOutcome;
    if CallOf(s, t) == [] {
      OneCall(s.auth, Auth.Reject(""));
    } else {
      OneCall(s.auth, CallOf(s, t)[0]);
    }
    if t.Deliver? {
      Delivered(c, s, t.m, t.chosen, t.now);
      var s1 := s.(replay := HandleMessage(c, s, t.m, t.chosen, t.now).0.replay);
      PerformCalls(c, s1, Classify(t.m), t.chosen, t.now);
    }
  }

  lemma {:induction false} RunCalls(c: Config, s: State, steps: seq<Step>)
    requires CanRun(c, s, steps)
    ensures Run(c, s, steps).auth == Auth.Calls(s.auth, CallsOf(c, s, steps))
    decreases steps
  {
    hide Enabled, Apply, CallOf, Auth.Calls;
    if steps == [] {
      OneCall(s.auth, Auth.Reject(""));
    } else {
      StepCalls(c, s, steps[0]);
      RunCalls(c, Apply(c, s, steps[0]), steps[1..]);
      Auth.CallsConcat(s.auth, CallOf(s, steps[0]), CallsOf(c, Apply(c, s, steps[0]), steps[1..]));
    }
  }

  /** After any run a key is approved exactly if the last successful call granted its node and it was last requested. */
  lemma ServerTrustHistory(c: Config, steps: seq<Step>, mac: Mac, key: Key)
    requires CanRun(c, INITIAL, steps)
    ensures var log := Auth.Log(map[], CallsOf(c, INITIAL, steps));
      Auth.ApprovedKey(Run(c, INITIAL, steps).auth, mac) == Some(key) <==>
      Auth.LastEvent(log, mac) == Some(Auth.Granted(mac)) && Auth.LatestKey(log, mac) == Some(key)
  {
    hide CanRun, Run, CallsOf, Auth.Log, Auth.ApprovedKey, Auth.LastEvent, Auth.LatestKey, Auth.Calls;
    RunCalls(c, INITIAL, steps);
    Auth.TrustHistory(CallsOf(c, INITIAL, steps), mac, key);
  }

  // ---- Replacement chains ----

  /** A hotswap onto a node whose own chain leads to the node it displaces. */
  ghost predicate ClosesCycle(s: State, t: Step)
  {
    && t.ApproveEnrollment? && Auth.Known(s.auth, t.macStr)
    && var mac := s.auth[Normalize(t.macStr)].mac;
      && Displaced(t.params, mac, t.owner).Some?
      && Leads(s.nodes, MacToString(mac), MacToString(t.owner.value.mac))
  }

  /** An approval of a node whose entry is replaced. */
  predicate RevivesReplaced(s: State, t: Step)
  {
    && t.ApproveEnrollment? && Auth.Known(s.auth, t.macStr)
    && Nodes.EntryFor(s.nodes, s.auth[Normalize(t.macStr)].mac).status.Replaced?
  }

  /** Apart from approvals, a step keeps every link and every entry's standing. */
  ghost predicate KeepsLinks(ns: Nodes.NodeMap, ns': Nodes.NodeMap)
  {
    && (forall k :: Next(ns', k) == Next(ns, k))
    && (forall k :: k in ns' && ns'[k].status.Replaced? ==>
          k in ns && ns[k].status.Replaced? && ns[k].nodeID == ns'[k].nodeID)
  }

  lemma PerformKeepsLinks(c: Config, s: State, a: Action, chosen: Option<string>, now: Time)
    ensures KeepsLinks(s.nodes, Perform(c, s, a, chosen, now).0.nodes)
  {
    hide Auth.Pended, Liveness.PublishHealth, Commands.Acknowledged, MacToString, Auth.IsApproved, Next;
    if a.Report? {
      var r := a.r;
      forall k
        ensures Next(Nodes.Updated(s.nodes, r.mac, r.adapterType, r.uptime, r.hopCount, now), k) == Next(s.nodes, k)
      {
        UpdateKeepsLinks(s.nodes, r.mac, r.adapterType, r.uptime, r.hopCount, now, k);
      }
    }
  }

  lemma ReassignKeepsLinks(ns: Nodes.NodeMap, n: Nodes.NodeInfo, id: byte, name: string, zone: string)
    requires Consistent(ns) && id > 0 && Nodes.LookupOutcome(ns, id, Some(n))
    ensures KeepsLinks(ns, Nodes.Assigned(ns, n.mac, n.nodeID, name, zone))
  {
    hide MacToString, Next, Nodes.LookupOutcome, Consistent;
    OwnerKey(ns, id, n);
    forall k
      ensures Next(Nodes.Assigned(ns, n.mac, n.nodeID, name, zone), k) == Next(ns, k)
    {
      AssignKeepsLinks(ns, n.mac, n.nodeID, name, zone, k);
    }
  }

  lemma PatchKeepsLinks(c: Config, s: State, id: byte, owner: Option<Nodes.NodeInfo>, name: Option<string>,
                        zone: Option<string>, adapterType: Option<string>)
    requires Consistent(s.nodes) && id > 0 && Nodes.LookupOutcome(s.nodes, id, owner)
    ensures KeepsLinks(s.nodes, UpdateNode(c, s, owner, name, zone, adapterType).nodes)
  {
    hide MacToString, KeepsLinks, AdapterTypeFromString, Nodes.LookupOutcome, Consistent, Nodes.Assigned;
    SameKeepsLinks(s.nodes);
    if owner.Some? {
      var n := owner.value;
      ReassignKeepsLinks(s.nodes, n, id, if name.Some? then name.value else n.name,
                         if zone.Some? then zone.value else n.zone);
    }
  }

  lemma DeleteKeepsLinks(s: State, id: byte, owner: Option<Nodes.NodeInfo>)
    requires Consistent(s.nodes) && id > 0 && Nodes.LookupOutcome(s.nodes, id, owner)
    ensures KeepsLinks(s.nodes, DeleteNode(s, owner).nodes)
  {
    hide MacToString, Next, Nodes.LookupOutcome, Consistent;
    if owner.Some? {
      forall k
        ensures Next(Nodes.Removed(s.nodes, owner.value.mac), k) == Next(s.nodes, k)
      {
        RemoveKeepsLinks(s.nodes, id, owner.value, k);
      }
    }
  }

  lemma StepKeepsLinks(c: Config, s: State, t: Step)
    requires Consistent(s.nodes) && Enabled(s, t) && !t.ApproveEnrollment?
    ensures KeepsLinks(s.nodes, Apply(c, s, t).nodes)
  {
    hide HandleMessage, Auth.Rejected, Uuid.Format, Commands.Head, Commands.Payload, Liveness.MarkExpired, Classify,
         Perform, Normalize, ParseMAC, Auth.Known, Consistent, Nodes.LookupOutcome, Commands.TokenOutcome, KeepsLinks,
         UpdateNode, DeleteNode;
    match t {
      case Deliver(m, chosen, now) =>
        Delivered(c, s, m, chosen, now);
        var s1 := s.(replay := HandleMessage(c, s, m, chosen, now).0.replay);
        PerformKeepsLinks(c, s1, Classify(m), chosen, now);
        SameKeepsLinks(s.nodes);
      case PatchNode(id, owner, name, zone, adapterType) =>
        PatchKeepsLinks(c, s, id, owner, name, zone, adapterType);
      case RemoveNode(id, owner) => DeleteKeepsLinks(s, id, owner);
      case _ => SameKeepsLinks(s.nodes);
    }
  }

  lemma SameKeepsLinks(ns: Nodes.NodeMap)
    ensures KeepsLinks(ns, ns)
  {
  }

  /** A step keeps the replacement chains acyclic exactly when it does not close a cycle. */
  lemma StepAcyclic(c: Config, s: State, t: Step)
    requires Consistent(s.nodes) && Acyclic(s.nodes) && Enabled(s, t)
    ensures Acyclic(Apply(c, s, t).nodes) <==> !ClosesCycle(s, t)
  {
    hide HandleMessage, Consistent, Acyclic, Leads, Nodes.LookupOutcome, Commands.TokenOutcome, Classify, Reject,
         UpdateNode, DeleteNode, NodeCommand, Sweep, Configure, MacToString, Normalize, ApprovalFrames, Next,
         ApprovedNodes, Displaced, Nodes.NextFree;
    if t.ApproveEnrollment? {
      if Auth.Known(s.auth, t.macStr) {
        ApprovalAcyclic(s.nodes, s.auth[Normalize(t.macStr)].mac, t.params, t.owner);
      }
    } else {
      StepKeepsLinks(c, s, t);
      SameLinksAcyclic(s.nodes, Apply(c, s, t).nodes);
    }
  }

  /** Approving a node whose entry is not replaced never closes a cycle. */
  lemma ActiveApprovalIsSafe(s: State, t: Step)
    requires Consistent(s.nodes) && Enabled(s, t) && !RevivesReplaced(s, t)
    ensures !ClosesCycle(s, t)
  {
    hide Consistent, MacToString, Normalize, Nodes.LookupOutcome, Commands.TokenOutcome, Classify;
    if t.ApproveEnrollment? && Auth.Known(s.auth, t.macStr) {
      var mac := s.auth[Normalize(t.macStr)].mac;
      if Displaced(t.params, mac, t.owner).Some? {
        MacToStringInjectiveOn(mac, t.owner.value.mac);
        ActiveLeadsNowhere(s.nodes, mac, MacToString(t.owner.value.mac));
      }
    }
  }

  lemma StepRetires(c: Config, s: State, t: Step)
    requires Consistent(s.nodes) && Retired(s.nodes) && Enabled(s, t) && !RevivesReplaced(s, t)
    ensures Retired(Apply(c, s, t).nodes)
  {
    hide HandleMessage, Consistent, Nodes.LookupOutcome, Commands.TokenOutcome, Classify, Reject,
         UpdateNode, DeleteNode, NodeCommand, Sweep, Configure, MacToString, Normalize, ApprovalFrames, Next,
         ApprovedNodes, Nodes.NextFree, Nodes.EntryFor;
    if t.ApproveEnrollment? {
      if Auth.Known(s.auth, t.macStr) {
        ApprovalRetires(s.nodes, s.auth[Normalize(t.macStr)].mac, t.params, t.owner);
      }
    } else {
      StepKeepsLinks(c, s, t);
    }
  }

  /** No step of the run approves a replaced node. */
  ghost predicate NeverRevives(c: Config, s: State, steps: seq<Step>)
    requires CanRun(c, s, steps)
    decreases steps
  {
    steps == [] || (!RevivesReplaced(s, steps[0]) && NeverRevives(c, Apply(c, s, steps[0]), steps[1..]))
  }

  /** Then following ReplacedBy always ends, and replaced entries hold no ID. */
  lemma {:induction false} ChainsStayAcyclic(c: Config, s: State, steps: seq<Step>)
    requires Invariant(c, s) && Acyclic(s.nodes) && Retired(s.nodes)
    requires CanRun(c, s, steps) && NeverRevives(c, s, steps)
    ensures Acyclic(Run(c, s, steps).nodes) && Retired(Run(c, s, steps).nodes)
    decreases steps
  {
    hide Consistent, Acyclic, Retired, Enabled, Apply, RevivesReplaced, ClosesCycle, Auth.Canonical, AcksAccounted,
         Liveness.AllInStep, ReplaySpaced, AllOutbound, Agrees;
    if steps == [] {
    } else {
      ActiveApprovalIsSafe(s, steps[0]);
      StepAcyclic(c, s, steps[0]);
      StepRetires(c, s, steps[0]);
      StepInvariant(c, s, steps[0]);
      ChainsStayAcyclic(c, Apply(c, s, steps[0]), steps[1..]);
    }
  }

  /** From the empty state: chains end, and a nonzero ID belongs to one entry only, replaced ones included. */
  lemma IDsUniqueOverAllEntries(c: Config, steps: seq<Step>, k: string, k': string)
    requires CanRun(c, INITIAL, steps) && NeverRevives(c, INITIAL, steps)
    requires var ns := Run(c, INITIAL, steps).nodes;
      k in ns && k' in ns && ns[k].nodeID == ns[k'].nodeID > 0
    ensures k == k' && Acyclic(Run(c, INITIAL, steps).nodes)
  {
    hide CanRun, Run, NeverRevives, Acyclic;
    InitialInvariant(c);
    Reachable(c, steps);
    EmptyAcyclic();
    ChainsStayAcyclic(c, INITIAL, steps);
    RetiredIDsUnique(Run(c, INITIAL, steps).nodes, k, k');
  }

  /**
   * After any run, approving a node under an explicit ID makes every lookup of the ID find that node, with the name
   * and zone of the displaced one where none were given, exactly when its own entry was not replaced before.
   */
  lemma ExplicitApprovalResolves(c: Config, steps: seq<Step>, t: Step, r: Option<Nodes.NodeInfo>)
    requires CanRun(c, INITIAL, steps) && Enabled(Run(c, INITIAL, steps), t)
    requires t.ApproveEnrollment? && t.params.nodeID > 0 && Auth.Known(Run(c, INITIAL, steps).auth, t.macStr)
    requires Nodes.LookupOutcome(Apply(c, Run(c, INITIAL, steps), t).nodes, t.params.nodeID, r)
    ensures var s := Run(c, INITIAL, steps); var mac := s.auth[Normalize(t.macStr)].mac;
      if RevivesReplaced(s, t) then r == None
      else
        var displaced := Displaced(t.params, mac, t.owner);
        && r.Some? && r.value.nodeID == t.params.nodeID
        && r.value.macString == Nodes.EntryFor(s.nodes, mac).macString
        && r.value.name == (if t.params.name == "" && displaced.Some? then displaced.value.name else t.params.name)
        && r.value.zone == (if t.params.zone == "" && displaced.Some? then displaced.value.zone else t.params.zone)
  {
    hide CanRun, Run, Normalize, MacToString, Nodes.LookupOutcome, ApprovedNodes, ApprovalFrames, Auth.Approved,
         Displaced, Consistent, Auth.Canonical, AcksAccounted, Liveness.AllInStep, ReplaySpaced, AllOutbound, Agrees;
    Reachable(c, steps);
    var s := Run(c, INITIAL, steps);
    var mac := s.auth[Normalize(t.macStr)].mac;
    ApproveNodes(c, s, t.macStr, t.params, t.owner, t.now);
    ApprovedEntry(s.nodes, mac, t.params, t.owner);
    ExplicitApprovalHandsOver(s.nodes, mac, t.params, t.owner, r);
  }

  lemma ApproveNodes(c: Config, s: State, macStr: string, p: ApprovalParams, owner: Option<Nodes.NodeInfo>, now: Time)
    requires Auth.Known(s.auth, macStr)
    ensures Approve(c, s, macStr, p, owner, now).nodes ==
            ApprovedNodes(s.nodes, s.auth[Normalize(macStr)].mac, p, owner)
  {
    hide Normalize, MacToString, ApprovedNodes, ApprovalFrames;
  }

  // ---- Sticky identity ----

  /** The fields a health report must not touch. */
  function IdentityOf(n: Nodes.NodeInfo): (byte, string, string, Nodes.Status, string)
  {
    (n.nodeID, n.name, n.zone, n.status, n.replacedBy)
  }

  ghost predicate KeepsIdentities(ns: Nodes.NodeMap, ns': Nodes.NodeMap)
  {
    forall k :: k in ns ==> k in ns' && IdentityOf(ns'[k]) == IdentityOf(ns[k])
  }

  /** Approvals, PATCH and DELETE are the steps that may change who a node is. */
  predicate Administers(t: Step)
  {
    t.ApproveEnrollment? || t.PatchNode? || t.RemoveNode?
  }

  lemma PerformKeepsIdentities(c: Config, s: State, a: Action, chosen: Option<string>, now: Time)
    ensures KeepsIdentities(s.nodes, Perform(c, s, a, chosen, now).0.nodes)
  {
    hide Auth.Pended, Auth.IsApproved, Liveness.PublishHealth, Commands.Acknowledged, MacToString;
  }

  lemma StepKeepsIdentities(c: Config, s: State, t: Step)
    requires Enabled(s, t) && !Administers(t)
    ensures KeepsIdentities(s.nodes, Apply(c, s, t).nodes)
  {
    hide HandleMessage, Auth.Rejected, Uuid.Format, Commands.Head, Commands.Payload, Liveness.MarkExpired, Classify,
         Perform, Normalize, ParseMAC, Passes, Commands.TokenOutcome, Nodes.LookupOutcome;
    if t.Deliver? {
      Delivered(c, s, t.m, t.chosen, t.now);
      var s1 := s.(replay := HandleMessage(c, s, t.m, t.chosen, t.now).0.replay);
      PerformKeepsIdentities(c, s1, Classify(t.m), t.chosen, t.now);
    }
  }

  /** No message, sweep or command changes an ID, a name, a zone or a standing, however long the run. */
  lemma {:induction false} IdentityIsSticky(c: Config, s: State, steps: seq<Step>, k: string)
    requires CanRun(c, s, steps) && (forall t :: t in steps ==> !Administers(t)) && k in s.nodes
    ensures var ns := Run(c, s, steps).nodes; k in ns && IdentityOf(ns[k]) == IdentityOf(s.nodes[k])
    decreases steps
  {
    hide Enabled, Apply, IdentityOf, Administers;
    if steps == [] {
    } else {
      assert steps[0] in steps;
      StepKeepsIdentities(c, s, steps[0]);
      IdentityIsSticky(c, Apply(c, s, steps[0]), steps[1..], k);
    }
  }

  // ---- Sweeps ----

  function TimeOf(t: Step, clock: Time): Time
  {
    match t
    case Deliver(_, _, now) => now
    case ApproveEnrollment(_, _, _, now) => now
    case IssueCommand(_, _, _, _, _, now) => now
    case SweepOffline(_, now) => now
    case _ => clock
  }

  /** The clock never goes back. */
  predicate Monotone(clock: Time, steps: seq<Step>)
    decreases steps
  {
    steps == [] || (clock <= TimeOf(steps[0], clock) && Monotone(TimeOf(steps[0], clock), steps[1..]))
  }

  function FinalClock(clock: Time, steps: seq<Step>): Time
    decreases steps
  {
    if steps == [] then clock else FinalClock(TimeOf(steps[0], clock), steps[1..])
  }

  /** A node that has an entry but never reported is long expired. */
  lemma NeverSeenExpired(clock: Time, timeout: Timeout)
    requires clock >= 0
    ensures Expired(clock, ZERO_TIME, timeout)
  {
  }

  /** Registry and flags change so that only reports raise, and entries keep or renew their time. */
  ghost predicate Ages(ns: Nodes.NodeMap, ns': Nodes.NodeMap)
  {
    forall k :: k in ns' ==> if k in ns then ns'[k].lastSeen == ns[k].lastSeen else ns'[k].lastSeen == ZERO_TIME
  }

  lemma AgesCurrent(ns: Nodes.NodeMap, ns': Nodes.NodeMap, l: Liveness.Live, clock: Time, now: Time, timeout: Timeout)
    requires Liveness.Current(ns, l, clock, timeout) && Ages(ns, ns') && 0 <= clock <= now
    ensures Liveness.Current(ns', l, now, timeout)
  {
    hide Expired;
    NeverSeenExpired(now, timeout);
    forall k | k in ns' && k in l.flags
      ensures Liveness.Flag(l.flags, k) || Expired(now, ns'[k].lastSeen, timeout)
    {
      if k in ns && Expired(clock, ns[k].lastSeen, timeout) {
        Liveness.TimePasses(clock, now, ns[k].lastSeen, timeout);
      }
    }
  }

  lemma ReportCurrent(c: Config, s: State, r: HealthReport, clock: Time, now: Time)
    requires Consistent(s.nodes) && Liveness.Current(s.nodes, s.live, clock, c.timeout) && clock <= now
    ensures var s' := ReportHealth(c, s, r, now); Liveness.Current(s'.nodes, s'.live, now, c.timeout)
  {
    hide Expired, MacToString;
    var s' := ReportHealth(c, s, r, now);
    var key := MacToString(r.mac);
    assert s'.nodes[key].macString == key;
    forall k | k in s'.nodes && k in s'.live.flags
      ensures Liveness.Flag(s'.live.flags, k) || Expired(now, s'.nodes[k].lastSeen, c.timeout)
    {
      if k != key && Expired(clock, s.nodes[k].lastSeen, c.timeout) {
        Liveness.TimePasses(clock, now, s.nodes[k].lastSeen, c.timeout);
      }
    }
  }

  lemma ApprovedAges(ns: Nodes.NodeMap, mac: Mac, p: ApprovalParams, owner: Option<Nodes.NodeInfo>)
    requires Consistent(ns) && (p.nodeID > 0 ==> Nodes.LookupOutcome(ns, p.nodeID, owner))
    ensures Ages(ns, ApprovedNodes(ns, mac, p, owner))
  {
    hide MacToString, Nodes.LookupOutcome, Nodes.NextFree, Consistent;
    ApprovedEntry(ns, mac, p, owner);
    ApprovedElsewhere(ns, mac, p, owner);
  }

  lemma PerformCurrent(c: Config, s: State, a: Action, chosen: Option<string>, clock: Time, now: Time)
    requires Consistent(s.nodes) && Liveness.Current(s.nodes, s.live, clock, c.timeout) && 0 <= clock <= now
    ensures var s' := Perform(c, s, a, chosen, now).0; Liveness.Current(s'.nodes, s'.live, now, c.timeout)
  {
    hide Consistent, Auth.Pended, Auth.IsApproved, Commands.Acknowledged, MacToString, ReportHealth, Expired;
    if a.Report? {
      ReportCurrent(c, s, a.r, clock, now);
    } else {
      AgesCurrent(s.nodes, s.nodes, s.live, clock, now, c.timeout);
    }
  }

  lemma SweepCurrent(c: Config, s: State, order: seq<string>, clock: Time, now: Time)
    requires Nodes.Canonical(s.nodes) && IsOrder(order, s.nodes.Keys)
    requires Liveness.Current(s.nodes, s.live, clock, c.timeout) && clock <= now
    ensures var s' := Sweep(c, s, order, now);
      Liveness.Exact(s'.nodes, s'.live, now, c.timeout) && Liveness.Current(s'.nodes, s'.live, now, c.timeout)
  {
    hide Nodes.Canonical, Expired, Liveness.MarkExpired, Liveness.Snapshot;
    Liveness.SweepMakesExact(s.nodes, s.live, clock, order, now, c.timeout);
    forall k | k in s.nodes
      ensures Expired(now, s.nodes[k].lastSeen, c.timeout) <==> now - s.nodes[k].lastSeen > c.timeout
    {
      ExpiredMeans(now, s.nodes[k].lastSeen, c.timeout);
    }
  }

  lemma ApproveCurrent(c: Config, s: State, macStr: string, p: ApprovalParams, owner: Option<Nodes.NodeInfo>,
                       clock: Time, now: Time)
    requires Consistent(s.nodes) && (p.nodeID > 0 ==> Nodes.LookupOutcome(s.nodes, p.nodeID, owner))
    requires Liveness.Current(s.nodes, s.live, clock, c.timeout) && 0 <= clock <= now
    ensures var s' := Approve(c, s, macStr, p, owner, now); Liveness.Current(s'.nodes, s'.live, now, c.timeout)
  {
    hide ApprovedNodes, ApprovalFrames, Normalize, Nodes.LookupOutcome, Consistent, Liveness.Current, MacToString, Ages;
    TimeKeepsCurrent(s.nodes, s.live, clock, now, c.timeout);
    if Auth.Known(s.auth, macStr) {
      var mac := s.auth[Normalize(macStr)].mac;
      var ns := ApprovedNodes(s.nodes, mac, p, owner);
      ApprovedAges(s.nodes, mac, p, owner);
      AgesCurrent(s.nodes, ns, s.live, clock, now, c.timeout);
      PublishCurrent(ns, s.live, Approve(c, s, macStr, p, owner, now).live, now, c.timeout);
    }
  }

  /** Time alone. */
  lemma TimeKeepsCurrent(ns: Nodes.NodeMap, l: Liveness.Live, clock: Time, now: Time, timeout: Timeout)
    requires Liveness.Current(ns, l, clock, timeout) && 0 <= clock <= now
    ensures Liveness.Current(ns, l, now, timeout)
  {
    hide Liveness.Current;
    AgesCurrent(ns, ns, l, clock, now, timeout);
  }

  lemma PatchAges(c: Config, s: State, id: byte, owner: Option<Nodes.NodeInfo>, name: Option<string>,
                  zone: Option<string>, adapterType: Option<string>)
    requires Consistent(s.nodes) && id > 0 && Nodes.LookupOutcome(s.nodes, id, owner)
    ensures Ages(s.nodes, UpdateNode(c, s, owner, name, zone, adapterType).nodes)
    ensures UpdateNode(c, s, owner, name, zone, adapterType).live == s.live
  {
    hide MacToString, AdapterTypeFromString, Nodes.LookupOutcome, Consistent;
    if owner.Some? {
      OwnerKey(s.nodes, id, owner.value);
    }
  }

  /** The steps that read no clock. */
  lemma OtherCurrent(c: Config, s: State, t: Step, clock: Time)
    requires Consistent(s.nodes) && Enabled(s, t) && 0 <= clock
    requires !t.Deliver? && !t.ApproveEnrollment? && !t.SweepOffline?
    requires Liveness.Current(s.nodes, s.live, clock, c.timeout)
    ensures var s' := Apply(c, s, t); Ages(s.nodes, s'.nodes) && s'.live == s.live
  {
    hide Auth.Rejected, Uuid.Format, Commands.Head, Commands.Payload, Normalize, ParseMAC, Nodes.LookupOutcome,
         Consistent, UpdateNode, Liveness.Current, MacToString;
    if t.PatchNode? {
      PatchAges(c, s, t.id, t.owner, t.name, t.zone, t.adapterType);
    }
  }

  lemma StepCurrent(c: Config, s: State, t: Step, clock: Time)
    requires Consistent(s.nodes) && Enabled(s, t) && 0 <= clock <= TimeOf(t, clock)
    requires Liveness.Current(s.nodes, s.live, clock, c.timeout)
    ensures var s' := Apply(c, s, t); Liveness.Current(s'.nodes, s'.live, TimeOf(t, clock), c.timeout)
  {
    hide HandleMessage, Approve, Sweep, Reject, UpdateNode, DeleteNode, NodeCommand, Configure, Classify, Perform,
         Nodes.LookupOutcome, Nodes.UniqueOwner, Commands.TokenOutcome, Liveness.Current, Nodes.Canonical, Ages;
    var now := TimeOf(t, clock);
    match t {
      case Deliver(m, chosen, _) => DeliverCurrent(c, s, m, chosen, clock, now);
      case ApproveEnrollment(macStr, p, owner, _) => ApproveCurrent(c, s, macStr, p, owner, clock, now);
      case SweepOffline(order, _) => SweepCurrent(c, s, order, clock, now);
      case _ =>
        OtherCurrent(c, s, t, clock);
        AgesCurrent(s.nodes, Apply(c, s, t).nodes, s.live, clock, now, c.timeout);
    }
  }

  lemma DeliverCurrent(c: Config, s: State, m: MeshMessage, chosen: Option<string>, clock: Time, now: Time)
    requires Consistent(s.nodes) && Liveness.Current(s.nodes, s.live, clock, c.timeout) && 0 <= clock <= now
    ensures var s' := HandleMessage(c, s, m, chosen, now).0; Liveness.Current(s'.nodes, s'.live, now, c.timeout)
  {
    hide HandleMessage, Perform, Classify, Liveness.Current, Consistent;
    Delivered(c, s, m, chosen, now);
    var s1 := s.(replay := HandleMessage(c, s, m, chosen, now).0.replay);
    PerformCurrent(c, s1, Classify(m), chosen, clock, now);
    TimeKeepsCurrent(s.nodes, s.live, clock, now, c.timeout);
  }

  lemma PublishCurrent(ns: Nodes.NodeMap, l: Liveness.Live, l': Liveness.Live, now: Time, timeout: Timeout)
    requires Liveness.Current(ns, l, now, timeout) && l'.flags == l.flags
    ensures Liveness.Current(ns, l', now, timeout)
  {
  }

  lemma {:induction false} RunCurrent(c: Config, s: State, steps: seq<Step>, clock: Time)
    requires Invariant(c, s) && CanRun(c, s, steps) && Monotone(clock, steps) && clock >= 0
    requires Liveness.Current(s.nodes, s.live, clock, c.timeout)
    ensures var s' := Run(c, s, steps);
      Liveness.Current(s'.nodes, s'.live, FinalClock(clock, steps), c.timeout) && clock <= FinalClock(clock, steps)
    decreases steps
  {
    hide Liveness.Current, Enabled, Apply, TimeOf, Consistent, Auth.Canonical, AcksAccounted, Liveness.AllInStep,
         ReplaySpaced, AllOutbound, Agrees;
    if steps == [] {
    } else {
      StepCurrent(c, s, steps[0], clock);
      StepInvariant(c, s, steps[0]);
      RunCurrent(c, Apply(c, s, steps[0]), steps[1..], TimeOf(steps[0], clock));
    }
  }

  /** The node whose health report a step performs, if any. */
  function ReporterOf(s: State, t: Step): set<string>
  {
    if t.Deliver? && Passes(s, t.m) && Classify(t.m).Report? then {MacToString(Classify(t.m).r.mac)} else {}
  }

  /** Every node that reported during a run. */
  function Reporters(c: Config, s: State, steps: seq<Step>): set<string>
    requires CanRun(c, s, steps)
    decreases steps
  {
    if steps == [] then {} else ReporterOf(s, steps[0]) + Reporters(c, Apply(c, s, steps[0]), steps[1..])
  }

  lemma ReportRaises(c: Config, s: State, r: HealthReport, now: Time)
    requires Nodes.Canonical(s.nodes)
    ensures ReportHealth(c, s, r, now).live.flags.Keys == s.live.flags.Keys + {MacToString(r.mac)}
  {
    hide MacToString, Liveness.PublishHealth;
    var k := MacToString(r.mac);
    var ns := Nodes.Updated(s.nodes, r.mac, r.adapterType, r.uptime, r.hopCount, now);
    assert ns[k].macString == k;
    LiveOnly(s.live, ns[k], now, c.timeout);
  }

  lemma PerformReporters(c: Config, s: State, a: Action, chosen: Option<string>, now: Time)
    requires Nodes.Canonical(s.nodes)
    ensures Perform(c, s, a, chosen, now).0.live.flags.Keys ==
            s.live.flags.Keys + (if a.Report? then {MacToString(a.r.mac)} else {})
  {
    hide MacToString, ReportHealth, Auth.Pended, Auth.IsApproved, Commands.Acknowledged, Nodes.Canonical;
    if a.Report? {
      ReportRaises(c, s, a.r, now);
    }
  }

  lemma StepReporters(c: Config, s: State, t: Step)
    requires Enabled(s, t) && Nodes.Canonical(s.nodes)
    ensures Apply(c, s, t).live.flags.Keys == s.live.flags.Keys + ReporterOf(s, t)
  {
    hide HandleMessage, Auth.Approved, Auth.Rejected, ApprovedNodes, ApprovalFrames, Uuid.Format, Commands.Head,
         Commands.Payload, Liveness.MarkExpired, Classify, Perform, Passes, Nodes.Assigned, Nodes.Removed, Normalize,
         ParseMAC, Nodes.LookupOutcome, Commands.TokenOutcome, MacToString, Liveness.Snapshot, Nodes.Canonical;
    match t {
      case Deliver(m, chosen, now) =>
        Delivered(c, s, m, chosen, now);
        var s1 := s.(replay := HandleMessage(c, s, m, chosen, now).0.replay);
        PerformReporters(c, s1, Classify(m), chosen, now);
      case SweepOffline(order, now) => SweepKeys(s.live, Liveness.Snapshot(s.nodes, order), now, c.timeout);
      case _ =>
    }
  }

  lemma {:induction false} SweepKeys(l: Liveness.Live, snapshot: seq<Nodes.NodeInfo>, now: Time, timeout: Timeout)
    ensures Liveness.MarkExpired(l, snapshot, now, timeout).flags.Keys == l.flags.Keys
  {
    hide Expired;
    if snapshot == [] {
    } else {
      SweepKeys(l, snapshot[..|snapshot| - 1], now, timeout);
    }
  }

  /** A node has a flag exactly if it reported during the run. */
  lemma {:induction false} RunReporters(c: Config, s: State, steps: seq<Step>)
    requires Invariant(c, s) && CanRun(c, s, steps)
    ensures Run(c, s, steps).live.flags.Keys == s.live.flags.Keys + Reporters(c, s, steps)
    decreases steps
  {
    hide Enabled, Apply, ReporterOf, Auth.Canonical, AcksAccounted, Liveness.AllInStep, ReplaySpaced, AllOutbound,
         Agrees, Nodes.Canonical, Nodes.UniqueOwner;
    if steps == [] {
    } else {
      StepReporters(c, s, steps[0]);
      StepInvariant(c, s, steps[0]);
      RunReporters(c, Apply(c, s, steps[0]), steps[1..]);
    }
  }

  /** Right after a sweep a registered node that reported since start is flagged online exactly if it did so in time. */
  lemma SweepsAreExact(c: Config, steps: seq<Step>, clock: Time, order: seq<string>, now: Time, k: string)
    requires CanRun(c, INITIAL, steps) && Monotone(clock, steps) && 0 <= clock && FinalClock(clock, steps) <= now
    requires IsOrder(order, Run(c, INITIAL, steps).nodes.Keys)
    requires k in Run(c, INITIAL, steps).nodes && k in Reporters(c, INITIAL, steps)
    ensures var s := Run(c, INITIAL, steps);
      Liveness.Flag(Sweep(c, s, order, now).live.flags, k) <==> now - s.nodes[k].lastSeen <= c.timeout
  {
    hide CanRun, Run, Monotone, FinalClock, Liveness.Current, Reporters, Expired, Liveness.MarkExpired,
         Liveness.Snapshot;
    InitialInvariant(c);
    StartCurrent(clock, c.timeout);
    RunCurrent(c, INITIAL, steps, clock);
    RunReporters(c, INITIAL, steps);
    Reachable(c, steps);
    var s := Run(c, INITIAL, steps);
    ExpiredMeans(now, s.nodes[k].lastSeen, c.timeout);
    SweepCurrent(c, s, order, FinalClock(clock, steps), now);
    SweepKeys(s.live, Liveness.Snapshot(s.nodes, order), now, c.timeout);
  }

  lemma StartCurrent(clock: Time, timeout: Timeout)
    ensures Liveness.Current(map[], Liveness.Live(map[], []), clock, timeout)
  {
  }

  // ---- Persistence ----

  /** Both registries of any reachable state come back from what Persist writes, in whatever order it writes. */
  lemma ReachableStatesPersist(c: Config, steps: seq<Step>, nodeOrder: seq<string>, authOrder: seq<string>)
    requires CanRun(c, INITIAL, steps)
    requires IsOrder(nodeOrder, Run(c, INITIAL, steps).nodes.Keys)
    requires IsOrder(authOrder, Run(c, INITIAL, steps).auth.Keys)
    ensures var s := Run(c, INITIAL, steps);
      && Nodes.LoadAll(map[], Nodes.Entries(s.nodes, nodeOrder)) == s.nodes
      && Auth.LoadAll(map[], Auth.Entries(s.auth, authOrder)) == Auth.TruncatedAll(s.auth)
  {
    hide CanRun, Run, Nodes.LoadAll, Nodes.Entries, Auth.LoadAll, Auth.Entries, Auth.TruncatedAll, Auth.Canonical,
         Nodes.Canonical;
    Reachable(c, steps);
    Nodes.PersistRoundTrip(Run(c, INITIAL, steps).nodes, nodeOrder);
    Auth.PersistRoundTrip(Run(c, INITIAL, steps).auth, authOrder, authOrder);
  }
}

// mesh/server.go as an object: its methods work on the registries in place and follow the value-level handlers.

module MeshServers {
  import opened Base
  import opened Wire
  import opened Messages
  import opened Events
  import opened Server
  import Broker
  import MacText
  import Uuid
  import Auth
  import Nodes
  import Commands
  import Liveness
  import Replay
  import Serial

  class MeshServer {
    const config: Config
    const authRegistry: Auth.Registry
    const nodeRegistry: Nodes.NodeRegistry
    const replayCache: Replay.ReplayCache
    const commandStore: Commands.CommandStore
    const eventBroker: Broker.EventBroker
    const comm: Serial.SerialComm
    var nodeOnlineState: map<string, bool>
    /** The frames written so far. */
    ghost var wire: seq<MeshMessage>

    ghost predicate Valid()
      reads this, authRegistry, nodeRegistry, commandStore, eventBroker, eventBroker.clients, comm.port
      reads replayCache, replayCache.nodes.Values, replayCache.rings
    {
      && authRegistry.Valid() && nodeRegistry.Valid() && commandStore.Valid() && eventBroker.Valid()
      && replayCache.Valid()
      && Serial.AllReadable(wire)
      && comm.port.tx == Serial.Stream(wire)
    }

    ghost function View(): State
      reads this, authRegistry, authRegistry.nodes.Values, nodeRegistry, nodeRegistry.nodes.Values
      reads commandStore, commandStore.commands.Values, eventBroker, replayCache, replayCache.nodes.Values
    {
      State(authRegistry.View(), nodeRegistry.View(), replayCache.Recorded(), commandStore.View(),
            Liveness.Live(nodeOnlineState, eventBroker.published), wire)
    }

    constructor (config: Config, port: Serial.SerialPort)
      requires port.tx == []
      ensures Valid() && View() == INITIAL && this.config == config && comm.port == port
    {
      this.config := config;
      authRegistry := new Auth.Registry();
      nodeRegistry := new Nodes.NodeRegistry();
      replayCache := new Replay.ReplayCache();
      commandStore := new Commands.CommandStore();
      eventBroker := new Broker.EventBroker();
      comm := new Serial.SerialComm(port);
      nodeOnlineState, wire := map[], [];
    }

    // ---- One part at a time ----

    method PublishEvent(e: Event)
      requires Valid()
      modifies eventBroker`published, eventBroker.clients
      ensures Valid() && View() == Server.Publish(old(View()), e)
    {
      hide Auth.Registry.View, Nodes.NodeRegistry.View, Commands.CommandStore.View, Replay.ReplayCache.Recorded,
           Replay.ReplayCache.Valid, Auth.Registry.Valid, Nodes.NodeRegistry.Valid, Commands.CommandStore.Valid,
           Broker.EventBroker.Valid, Serial.AllReadable, Serial.Stream;
      eventBroker.Publish(e);
    }

    /** activeOutboundComm().WriteFrame. */
    method Transmit(m: MeshMessage)
      requires Valid() && Outbound(m)
      modifies this`wire, comm.port`tx
      ensures Valid() && View() == old(View()).(wire := old(View()).wire + [m])
    {
      hide Auth.Registry.View, Nodes.NodeRegistry.View, Commands.CommandStore.View, Replay.ReplayCache.Recorded,
           Replay.ReplayCache.Valid, Auth.Registry.Valid, Nodes.NodeRegistry.Valid, Commands.CommandStore.Valid,
           Broker.EventBroker.Valid, Serial.AllReadable, Serial.Stream, Serial.Frame, Outbound, Serial.Readable;
      OutboundSize(m);
      Serial.ReadableIsGo(m);
      StreamSnoc(wire, m);
      comm.WriteFrame(m);
      wire := wire + [m];
    }

    method GetNode(mac: seq<byte>) returns (r: Option<Nodes.NodeInfo>)
      ensures var k := MacText.MacToString(mac);
        r == if k in View().nodes then Some(View().nodes[k]) else None
    {
      hide Auth.Registry.View, Nodes.NodeRegistry.View, Commands.CommandStore.View, Replay.ReplayCache.Recorded,
           MacText.MacToString;
      r := nodeRegistry.GetNode(mac);
    }

    method GetNodeByID(id: byte) returns (r: Option<Nodes.NodeInfo>)
      ensures Nodes.LookupOutcome(View().nodes, id, r)
    {
      hide Auth.Registry.View, Nodes.NodeRegistry.View, Commands.CommandStore.View, Replay.ReplayCache.Recorded,
           Nodes.LookupOutcome;
      r := nodeRegistry.GetNodeByID(id);
    }

    method GetAllNodes() returns (nodes: seq<Nodes.NodeInfo>)
      ensures exists order ::
        IsOrder(order, View().nodes.Keys) && nodes == Liveness.Snapshot(View().nodes, order)
    {
      hide Nodes.Lists, IsOrder, Liveness.Snapshot;
      nodes := nodeRegistry.GetAllNodes();
      Liveness.ListedSnapshot(View().nodes, nodes);
    }

    method GetCommand(id: string) returns (r: Option<Commands.Command>)
      ensures r == if id in View().commands then Some(View().commands[id]) else None
    {
      hide Auth.Registry.View, Nodes.NodeRegistry.View, Commands.CommandStore.View, Replay.ReplayCache.Recorded;
      r := commandStore.Get(id);
    }

    // ---- Liveness ----

    method PublishHealthEvent(node: Nodes.NodeInfo, now: Time)
      requires Valid()
      modifies this`nodeOnlineState, eventBroker`published, eventBroker.clients
      ensures Valid()
      ensures View() == old(View()).(live := Liveness.PublishHealth(old(View()).live, node, now, config.timeout))
    {
      hide Valid;
      var online := Since(now, node.lastSeen) <= config.timeout;
      PublishEvent(Health(node.nodeID, node.name, online, node.uptime, node.hopCount));
      if !Liveness.Flag(nodeOnlineState, node.macString) {
        RaiseOrLower(node.macString, true);
        PublishEvent(NodeOnline(node.macString, node.nodeID, node.name));
      }
    }

    method RaiseOrLower(node: string, up: bool)
      requires Valid()
      modifies this`nodeOnlineState
      ensures Valid()
      ensures View() == old(View()).(live := old(View()).live.(flags := old(View()).live.flags[node := up]))
    {
      hide Auth.Registry.View, Nodes.NodeRegistry.View, Commands.CommandStore.View, Replay.ReplayCache.Recorded,
           Replay.ReplayCache.Valid, Auth.Registry.Valid, Nodes.NodeRegistry.Valid, Commands.CommandStore.Valid,
           Broker.EventBroker.Valid, Serial.AllReadable, Serial.Stream;
      nodeOnlineState := nodeOnlineState[node := up];
    }

    /** One turn of the loop of CheckOfflineNodes. */
    method MarkIfExpired(node: Nodes.NodeInfo, now: Time)
      requires Valid()
      modifies this`nodeOnlineState, eventBroker`published, eventBroker.clients
      ensures Valid()
      ensures View() == old(View()).(live := Liveness.MarkIfExpired(old(View()).live, node, now, config.timeout))
    {
      hide Valid;
      if Since(now, node.lastSeen) > config.timeout {
        if Liveness.Flag(nodeOnlineState, node.macString) {
          RaiseOrLower(node.macString, false);
          PublishEvent(NodeOffline(node.macString, node.nodeID, node.name, node.lastSeen));
        }
      }
    }

    method CheckOfflineNodes(now: Time)
      requires Valid()
      modifies this`nodeOnlineState, eventBroker`published, eventBroker.clients
      ensures Valid()
      ensures exists order ::
        IsOrder(order, old(View()).nodes.Keys) && View() == Sweep(config, old(View()), order, now)
    {
      hide Valid, View, Liveness.MarkIfExpired, Liveness.Snapshot;
      var nodes := GetAllNodes();
      ghost var before := View();
      ghost var order :| IsOrder(order, before.nodes.Keys) && nodes == Liveness.Snapshot(before.nodes, order);
      for i := 0 to |nodes|
        invariant Valid()
        invariant View() == before.(live := Liveness.MarkExpired(before.live, nodes[..i], now, config.timeout))
      {
        assert nodes[..i + 1][..i] == nodes[..i];
        MarkIfExpired(nodes[i], now);
      }
      assert nodes[..|nodes|] == nodes;
      assert View() == Sweep(config, before, order, now);
    }

    // ---- Inbound messages ----

    method UpdateRegistry(r: HealthReport, now: Time)
      requires Valid()
      modifies nodeRegistry, nodeRegistry.nodes.Values
      ensures Valid()
      ensures View() == old(View()).(nodes := Nodes.Updated(old(View()).nodes, r.mac, r.adapterType, r.uptime,
                                                            r.hopCount, now))
    {
      hide Auth.Registry.View, Nodes.NodeRegistry.View, Commands.CommandStore.View, Replay.ReplayCache.Recorded,
           Replay.ReplayCache.Valid, Auth.Registry.Valid, Nodes.NodeRegistry.Valid, Commands.CommandStore.Valid,
           Broker.EventBroker.Valid, Serial.AllReadable, Serial.Stream, Nodes.Updated;
      nodeRegistry.UpdateNode(r.mac, r.adapterType, r.uptime, r.hopCount, now);
      assert authRegistry.View() == old(authRegistry.View());
      assert commandStore.View() == old(commandStore.View());
      assert replayCache.Recorded() == old(replayCache.Recorded());
    }

    method HandleHealthReport(m: MeshMessage, now: Time) returns (r: Result<HealthReport, HealthError>)
      requires Valid()
      modifies this`nodeOnlineState, eventBroker`published, eventBroker.clients
      modifies nodeRegistry, nodeRegistry.nodes.Values
      ensures Valid() && r == ParseHealthReport(m)
      ensures View() == if r.Ok? then ReportHealth(config, old(View()), r.value, now) else old(View())
    {
      hide Valid, View, ParseHealthReport, MacText.MacToString, Liveness.PublishHealth;
      r := ParseHealthReport(m);
      if r.Ok? {
        UpdateRegistry(r.value, now);
        var node := GetNode(r.value.mac);
        PublishHealthEvent(node.value, now);
      }
    }

    method Acknowledge(t0: byte, t1: byte, now: Time) returns (chosen: Option<string>)
      requires Valid()
      modifies commandStore.commands.Values
      ensures Valid() && Commands.TokenOutcome(old(View()).commands, t0, t1, chosen)
      ensures chosen.Some? ==> chosen.value in old(View()).commands
      ensures View() == if chosen.Some? then
                          old(View()).(commands := Commands.Acknowledged(old(View()).commands, chosen.value, now))
                        else old(View())
    {
      hide Auth.Registry.View, Nodes.NodeRegistry.View, Commands.CommandStore.View, Replay.ReplayCache.Recorded,
           Replay.ReplayCache.Valid, Auth.Registry.Valid, Nodes.NodeRegistry.Valid, Commands.CommandStore.Valid,
           Broker.EventBroker.Valid, Serial.AllReadable, Serial.Stream, Uuid.Parse, Commands.Acknowledged;
      chosen := commandStore.AckByToken(t0, t1, now);
    }

    method HandleCommandAck(t0: byte, t1: byte, now: Time) returns (ghost chosen: Option<string>)
      requires Valid()
      modifies commandStore.commands.Values, eventBroker`published, eventBroker.clients
      ensures Valid() && Commands.TokenOutcome(old(View()).commands, t0, t1, chosen)
      ensures View() == AckCommand(old(View()), chosen, now)
    {
      hide Valid, View, Commands.TokenOutcome;
      var commandID := Acknowledge(t0, t1, now);
      chosen := commandID;
      if commandID.Some? {
        var cmd := GetCommand(commandID.value);
        var nodeID := if cmd.Some? then cmd.value.nodeID else 0;
        PublishEvent(CommandAck(commandID.value, nodeID));
      }
    }

    method HandleEnrollmentRequest(mac: Mac, key: Key, now: Time) returns (ok: bool)
      requires Valid()
      modifies authRegistry
      ensures Valid()
      ensures View() == old(View()).(auth := Auth.Pended(old(View()).auth, mac, key, now))
      ensures ok <==> !Auth.IsApproved(old(View()).auth, mac)
    {
      hide Auth.Registry.View, Nodes.NodeRegistry.View, Commands.CommandStore.View, Replay.ReplayCache.Recorded,
           Replay.ReplayCache.Valid, Auth.Registry.Valid, Nodes.NodeRegistry.Valid, Commands.CommandStore.Valid,
           Broker.EventBroker.Valid, Serial.AllReadable, Serial.Stream, Auth.Pended, Auth.IsApproved;
      ok := authRegistry.AddPending(mac, key, now);
    }

    method HandlePIRData(m: MeshMessage)
      requires Valid()
      modifies eventBroker`published, eventBroker.clients
      ensures Valid() && View() == ReportMotion(config, old(View()), m.origin)
    {
      hide Valid, View, MacText.MacToString;
      if !config.eventStore {
        return;
      }
      var node := GetNode(m.origin);
      if node.Some? {
        PublishEvent(Motion(node.value.nodeID, node.value.name, node.value.zone, node.value.hopCount));
      }
    }

    /** The switches of handleMessage, handleAdapterData and handleSerialData. */
    method Dispatch(m: MeshMessage, now: Time) returns (outcome: Outcome, ghost chosen: Option<string>)
      requires Valid()
      modifies this`nodeOnlineState, eventBroker`published, eventBroker.clients
      modifies nodeRegistry, nodeRegistry.nodes.Values, authRegistry, commandStore.commands.Values
      ensures Valid() && (View(), outcome) == Perform(config, old(View()), Classify(m), chosen, now)
      ensures var a := Classify(m); a.AckToken? ==> Commands.TokenOutcome(old(View()).commands, a.t0, a.t1, chosen)
    {
      hide Valid, View, ParseHealthReport, ReportHealth, AckCommand, ReportMotion, Auth.Pended, Auth.IsApproved,
           Commands.TokenOutcome;
      outcome, chosen := Handled, None;
      if m.messageType == TYPE_ADAPTER_DATA {
        if m.dataType == ADAPTER_SERIAL {
          if m.data == [] {
            outcome := Failed;
          } else if m.data[0] == OP_HEALTH_REPORT || m.data[0] == OP_NODE_HEALTH {
            var r := HandleHealthReport(m, now);
            outcome := if r.Ok? then Handled else Failed;
          } else if m.data[0] == OP_COMMAND_ACK && |m.data| >= 3 {
            chosen := HandleCommandAck(m.data[1], m.data[2], now);
          }
        } else if m.dataType == ADAPTER_PIR {
          HandlePIRData(m);
        }
      } else if m.messageType == TYPE_ENROLLMENT {
        if |m.origin| < 6 || |m.publicKey| != 32 {
          outcome := Failed;
        } else {
          var ok := HandleEnrollmentRequest(m.origin[..6], m.publicKey, now);
          outcome := if ok then Handled else Failed;
        }
      }
    }

    /** The replay check of handleMessage. */
    method Filter(origin: Mac, p: Replay.Pair) returns (dup: bool)
      requires Valid()
      modifies replayCache, replayCache.nodes.Values, replayCache.rings
      ensures Valid()
      ensures View() == old(View()).(replay := Replay.RecordFor(old(View()).replay, origin, p))
      ensures dup == Replay.Duplicate(Replay.HistoryOf(old(View()).replay, origin), p)
    {
      hide Auth.Registry.View, Nodes.NodeRegistry.View, Commands.CommandStore.View, Replay.ReplayCache.Recorded,
           Replay.ReplayCache.Valid, Auth.Registry.Valid, Nodes.NodeRegistry.Valid, Commands.CommandStore.Valid,
           Broker.EventBroker.Valid, Serial.AllReadable, Serial.Stream, Replay.RecordFor, Replay.Duplicate;
      dup := replayCache.IsDuplicate(origin, p.epoch, p.seqNum);
    }

    method HandleMessage(m: MeshMessage, now: Time) returns (outcome: Outcome, ghost chosen: Option<string>)
      requires Valid()
      modifies this`nodeOnlineState, eventBroker`published, eventBroker.clients
      modifies nodeRegistry, nodeRegistry.nodes.Values, authRegistry, commandStore.commands.Values
      modifies replayCache, replayCache.nodes.Values, replayCache.rings
      ensures Valid() && (View(), outcome) == Server.HandleMessage(config, old(View()), m, chosen, now)
      ensures outcome != Dropped ==> Enabled(old(View()), Deliver(m, chosen, now))
    {
      hide Valid, View, Perform, Classify, Commands.TokenOutcome, Replay.RecordFor, Replay.Duplicate;
      chosen := None;
      if m.protoVersion > 0 && m.protoVersion != 2 {
        return Dropped, None;
      }
      if m.protoVersion == 2 && m.epochNum > 0 {
        if |m.origin| != 6 {
          return Dropped, None;
        }
        var dup := Filter(m.origin, Replay.Pair(m.epochNum, m.seqNum));
        if dup {
          return Dropped, None;
        }
      }
      outcome, chosen := Dispatch(m, now);
    }

    // ---- Enrollment ----

    method GrantTrust(macStr: string, now: Time) returns (node: Option<Auth.NodeAuth>)
      requires Valid()
      modifies authRegistry.nodes.Values
      ensures Valid() && View() == old(View()).(auth := Auth.Approved(old(View()).auth, macStr, now))
      ensures node == if Auth.Known(old(View()).auth, macStr) then Some(View().auth[MacText.Normalize(macStr)])
                      else None
    {
      hide Auth.Registry.View, Nodes.NodeRegistry.View, Commands.CommandStore.View, Replay.ReplayCache.Recorded,
           Replay.ReplayCache.Valid, Auth.Registry.Valid, Nodes.NodeRegistry.Valid, Commands.CommandStore.Valid,
           Broker.EventBroker.Valid, Serial.AllReadable, Serial.Stream, MacText.Normalize, Auth.Approved;
      node := authRegistry.Approve(macStr, now);
    }

    method RefuseTrust(macStr: string) returns (ok: bool)
      requires Valid()
      modifies authRegistry.nodes.Values
      ensures Valid() && View() == old(View()).(auth := Auth.Rejected(old(View()).auth, macStr))
      ensures ok <==> Auth.Known(old(View()).auth, macStr)
    {
      hide Auth.Registry.View, Nodes.NodeRegistry.View, Commands.CommandStore.View, Replay.ReplayCache.Recorded,
           Replay.ReplayCache.Valid, Auth.Registry.Valid, Nodes.NodeRegistry.Valid, Commands.CommandStore.Valid,
           Broker.EventBroker.Valid, Serial.AllReadable, Serial.Stream, MacText.Normalize, Auth.Rejected;
      ok := authRegistry.Reject(macStr);
    }

    method AssignNode(mac: seq<byte>, id: byte, name: string, zone: string)
      requires Valid()
      modifies nodeRegistry, nodeRegistry.nodes.Values
      ensures Valid() && fresh(nodeRegistry.nodes.Values - old(nodeRegistry.nodes.Values))
      ensures View() == old(View()).(nodes := Nodes.Assigned(old(View()).nodes, mac, id, name, zone))
    {
      hide Auth.Registry.View, Nodes.NodeRegistry.View, Commands.CommandStore.View, Replay.ReplayCache.Recorded,
           Replay.ReplayCache.Valid, Auth.Registry.Valid, Nodes.NodeRegistry.Valid, Commands.CommandStore.Valid,
           Broker.EventBroker.Valid, Serial.AllReadable, Serial.Stream, Nodes.Assigned;
      nodeRegistry.AssignNode(mac, id, name, zone);
      assert authRegistry.View() == old(authRegistry.View());
      assert commandStore.View() == old(commandStore.View());
      assert replayCache.Recorded() == old(replayCache.Recorded());
    }

    method MarkReplaced(mac: seq<byte>, successor: string)
      requires Valid()
      modifies nodeRegistry.nodes.Values
      ensures Valid()
      ensures View() == old(View()).(nodes := Nodes.MarkedReplaced(old(View()).nodes, mac, successor))
    {
      hide Auth.Registry.View, Nodes.NodeRegistry.View, Commands.CommandStore.View, Replay.ReplayCache.Recorded,
           Replay.ReplayCache.Valid, Auth.Registry.Valid, Nodes.NodeRegistry.Valid, Commands.CommandStore.Valid,
           Broker.EventBroker.Valid, Serial.AllReadable, Serial.Stream, Nodes.MarkedReplaced;
      nodeRegistry.MarkReplaced(mac, successor);
    }

    method NextFreeNodeID() returns (id: byte)
      ensures id == Nodes.NextFree(View().nodes)
    {
      hide Auth.Registry.View, Nodes.NodeRegistry.View, Commands.CommandStore.View, Replay.ReplayCache.Recorded,
           Nodes.NextFree;
      id := nodeRegistry.NextFreeNodeID();
    }

    method SendNodeIDSet(mac: Mac, id: byte)
      requires Valid()
      modifies this`wire, comm.port`tx
      ensures Valid() && View() == old(View()).(wire := old(View()).wire + [NodeIdSet(mac, id)])
    {
      hide Valid, View, Outbound, NodeIdSet;
      var m := BuildNodeIdSetMessage(mac, id);
      SentMessagesAreOutbound(mac, Zeros(32), 0, [], id);
      Transmit(m);
    }

    method SendConfigSet(mac: Mac, adapterType: i32)
      requires Valid()
      modifies this`wire, comm.port`tx
      ensures Valid() && View() == old(View()).(wire := old(View()).wire + [ConfigSet(mac, adapterType)])
    {
      hide Valid, View, Outbound, ConfigSet;
      var m := BuildConfigSetMessage(mac, adapterType);
      SentMessagesAreOutbound(mac, Zeros(32), adapterType, [], 0);
      Transmit(m.value);
    }

    /** The three frames of an approval. */
    method SendApproval(mac: Mac, key: Key, id: byte, inherited: i32)
      requires Valid()
      modifies this`wire, comm.port`tx
      ensures Valid() && View() == old(View()).(wire := old(View()).wire + ApprovalFrames(mac, key, id, inherited))
    {
      hide Valid, View, Outbound, NodeIdSet, ConfigSet;
      ghost var before := View();
      SentMessagesAreOutbound(mac, key, 0, [], 0);
      Transmit(DEFAULT.(messageType := TYPE_JOIN_ACK, target := mac, publicKey := key));
      ghost var frames := [JoinAck(mac, key)];
      if id > 0 {
        SendNodeIDSet(mac, id);
        frames := frames + [NodeIdSet(mac, id)];
        assert View().wire == before.wire + frames;
      }
      if inherited != ADAPTER_UNKNOWN {
        SendConfigSet(mac, inherited);
        frames := frames + [ConfigSet(mac, inherited)];
      }
      assert View().wire == before.wire + frames;
      assert frames == ApprovalFrames(mac, key, id, inherited);
    }

    /** The ID, what is inherited, and the registry entries of an approval. */
    method AssignIdentity(mac: Mac, params: ApprovalParams)
      returns (nodeID: byte, inherited: i32, ghost owner: Option<Nodes.NodeInfo>)
      requires Valid()
      modifies nodeRegistry, nodeRegistry.nodes.Values
      ensures Valid()
      ensures params.nodeID > 0 ==> Nodes.LookupOutcome(old(View()).nodes, params.nodeID, owner)
      ensures nodeID == AssignedID(old(View()).nodes, params)
      ensures inherited == InheritedType(params, Displaced(params, mac, owner))
      ensures View() == old(View()).(nodes := ApprovedNodes(old(View()).nodes, mac, params, owner))
    {
      hide Valid, View, MacText.MacToString, Nodes.LookupOutcome, Nodes.NextFree, Nodes.Assigned, Nodes.MarkedReplaced;
      owner := None;
      nodeID := params.nodeID;
      if nodeID == 0 {
        nodeID := NextFreeNodeID();
      }
      var displaced: Option<Nodes.NodeInfo> := None;
      if params.nodeID > 0 {
        var found := GetNodeByID(params.nodeID);
        owner := found;
        if found.Some? && found.value.mac != mac {
          displaced := found;
        }
      }
      inherited := InheritedType(params, displaced);
      AssignNode(mac, nodeID, InheritedName(params, displaced), InheritedZone(params, displaced));
      if displaced.Some? {
        MarkReplaced(displaced.value.mac, MacText.MacToString(mac));
      }
    }

    method ApproveEnrollment(macStr: string, params: ApprovalParams, now: Time)
      returns (ok: bool, ghost owner: Option<Nodes.NodeInfo>)
      requires Valid()
      modifies this`wire, comm.port`tx, eventBroker`published, eventBroker.clients
      modifies authRegistry.nodes.Values, nodeRegistry, nodeRegistry.nodes.Values
      ensures Valid() && (ok <==> Auth.Known(old(View()).auth, macStr))
      ensures ok && params.nodeID > 0 ==> Nodes.LookupOutcome(old(View()).nodes, params.nodeID, owner)
      ensures View() == Approve(config, old(View()), macStr, params, owner, now)
    {
      hide Valid, View, MacText.MacToString, MacText.Normalize, Nodes.LookupOutcome, ApprovedNodes, AssignedID,
           InheritedType, Displaced, ApprovalFrames, Auth.Approved;
      owner := None;
      ghost var before := View();
      var approved := GrantTrust(macStr, now);
      if approved.None? {
        UnknownApproval(before.auth, macStr, now);
        return false, None;
      }
      var node := approved.value;
      var nodeID, inherited, found := AssignIdentity(node.mac, params);
      owner := found;
      Announce(node.mac, params);
      if config.attached {
        SendApproval(node.mac, node.publicKey, nodeID, inherited);
      }
      ok := true;
    }

    /** publishEnrolledEvent for the entry just assigned. */
    method Announce(mac: Mac, params: ApprovalParams)
      requires Valid() && MacText.MacToString(mac) in View().nodes
      modifies eventBroker`published, eventBroker.clients
      ensures Valid()
      ensures var entry := old(View()).nodes[MacText.MacToString(mac)];
        View() == Server.Publish(old(View()), Enrolled(entry.nodeID, entry.name,
                                                if params.adapterType == "" then "unknown" else params.adapterType))
    {
      hide Valid, View, MacText.MacToString;
      var typeStr := if params.adapterType == "" then "unknown" else params.adapterType;
      var entry := GetNode(mac);
      if entry.Some? {
        PublishEvent(Enrolled(entry.value.nodeID, entry.value.name, typeStr));
      }
    }

    method RejectEnrollment(macStr: string) returns (ok: bool)
      requires Valid()
      modifies this`wire, comm.port`tx, authRegistry.nodes.Values
      ensures Valid() && View() == Reject(config, old(View()), macStr)
      ensures ok <==> MacText.ParseMAC(macStr).Some? && Auth.Known(old(View()).auth, macStr)
    {
      hide Valid, View, MacText.ParseMAC, MacText.Normalize, Outbound;
      var mac := MacText.ParseMAC(macStr);
      if mac.None? {
        return false;
      }
      ok := RefuseTrust(macStr);
      if !ok {
        UnknownRejection(View().auth, macStr);
      } else if config.attached {
        SentMessagesAreOutbound(mac.value, Zeros(32), 0, [], 0);
        Transmit(DEFAULT.(messageType := TYPE_JOIN_ACK, target := mac.value));
      }
    }

    // ---- Node administration ----

    /** v1UpdateNode, after the request has been decoded. */
    method PatchNode(id: byte, name: Option<string>, zone: Option<string>, adapterType: Option<string>)
      returns (ok: bool, ghost owner: Option<Nodes.NodeInfo>)
      requires Valid() && id > 0
      modifies this`wire, comm.port`tx, nodeRegistry, nodeRegistry.nodes.Values
      ensures Valid() && Enabled(old(View()), Step.PatchNode(id, owner, name, zone, adapterType))
      ensures View() == UpdateNode(config, old(View()), owner, name, zone, adapterType)
      ensures ok <==> owner.Some?
                      && (|| adapterType.None?
                          || (&& AdapterTypeFromString(adapterType.value).Some? && |owner.value.mac| == 6
                              && config.attached))
    {
      hide Valid, View, Nodes.LookupOutcome, Nodes.Assigned, AdapterTypeFromString;
      var node := GetNodeByID(id);
      owner := node;
      if node.None? {
        return false, node;
      }
      var newType := if adapterType.Some? then AdapterTypeFromString(adapterType.value) else None;
      if adapterType.Some? && newType.None? {
        return false, node;
      }
      var n := node.value;
      AssignNode(n.mac, n.nodeID, if name.Some? then name.value else n.name, if zone.Some? then zone.value else n.zone);
      ok := true;
      if adapterType.Some? {
        if |n.mac| == 6 && config.attached {
          SendConfigSet(n.mac, newType.value);
        } else {
          ok := false;
        }
      }
    }

    method DropNode(mac: seq<byte>)
      requires Valid()
      modifies nodeRegistry
      ensures Valid() && View() == old(View()).(nodes := Nodes.Removed(old(View()).nodes, mac))
    {
      hide Auth.Registry.View, Nodes.NodeRegistry.View, Commands.CommandStore.View, Replay.ReplayCache.Recorded,
           Replay.ReplayCache.Valid, Auth.Registry.Valid, Nodes.NodeRegistry.Valid, Commands.CommandStore.Valid,
           Broker.EventBroker.Valid, Serial.AllReadable, Serial.Stream, Nodes.Removed;
      var existed := nodeRegistry.RemoveNode(mac);
    }

    method DeleteNode(id: byte) returns (ok: bool, ghost owner: Option<Nodes.NodeInfo>)
      requires Valid() && id > 0
      modifies nodeRegistry
      ensures Valid() && Enabled(old(View()), Step.RemoveNode(id, owner))
      ensures View() == Server.DeleteNode(old(View()), owner)
      ensures ok <==> owner.Some?
    {
      hide Valid, View, Nodes.LookupOutcome, Nodes.Removed;
      var node := GetNodeByID(id);
      owner := node;
      ok := node.Some?;
      if ok {
        DropNode(node.value.mac);
      }
    }

    method StoreCommand(cmd: Commands.Command)
      requires Valid()
      modifies commandStore
      ensures Valid()
      ensures View() == old(View()).(commands := Commands.Stored(old(View()).commands, cmd))
    {
      hide Auth.Registry.View, Nodes.NodeRegistry.View, Commands.CommandStore.View, Replay.ReplayCache.Recorded,
           Replay.ReplayCache.Valid, Auth.Registry.Valid, Nodes.NodeRegistry.Valid, Commands.CommandStore.Valid,
           Broker.EventBroker.Valid, Serial.AllReadable, Serial.Stream, Commands.Stored;
      commandStore.Add(cmd);
    }

    method SendNodeData(dataType: i32, data: seq<byte>) returns (ok: bool)
      requires Valid()
      modifies this`wire, comm.port`tx
      ensures Valid() && View() == Send(config, old(View()), [NodeData(dataType, data)])
      ensures ok <==> config.attached
    {
      hide Valid, View, Outbound, NodeData;
      if !config.attached {
        return false;
      }
      var m := BuildNodeDataMessage(dataType, data);
      SentMessagesAreOutbound(Zeros(6), Zeros(32), dataType, data, 0);
      Transmit(m);
      ok := true;
    }

    /** v1NodeCommand; `uuid` is the one drawn for the command. */
    method NodeCommand(id: byte, action: string, colour: seq<byte>, uuid: UuidBytes, now: Time)
      returns (ok: bool, ghost owner: Option<Nodes.NodeInfo>)
      requires Valid() && id > 0
      modifies this`wire, comm.port`tx, commandStore
      ensures Valid() && Nodes.LookupOutcome(old(View()).nodes, id, owner)
      ensures View() == Server.NodeCommand(config, old(View()), id, owner, action, colour, uuid, now)
      ensures ok <==> owner.Some? && AdapterIsOutput(owner.value.adapterType)
                      && Commands.Head(config.ops, action, colour).Ok? && config.attached
    {
      hide Valid, View, Nodes.LookupOutcome, Commands.Head, Commands.Stored, Uuid.Format, NodeData,
           Commands.Payload;
      var node := GetNodeByID(id);
      owner := node;
      if node.None? || !AdapterIsOutput(node.value.adapterType) {
        return false, node;
      }
      var head := Commands.Head(config.ops, action, colour);
      if head.Err? {
        return false, node;
      }
      Commands.HeadIsShort(config.ops, action, colour);
      var payload := Commands.BuildPayload(head.value, uuid);
      StoreCommand(Commands.Command(Uuid.Format(uuid), id, action, now, Commands.Pending, None));
      ok := SendNodeData(node.value.adapterType, payload);
    }
  }

  lemma StreamSnoc(wire: seq<MeshMessage>, m: MeshMessage)
    requires Serial.AllReadable(wire) && Serial.Readable(m)
    ensures Serial.AllReadable(wire + [m]) && Serial.Stream(wire + [m]) == Serial.Stream(wire) + Serial.Frame(m)
  {
    hide Serial.Frame;
    Serial.StreamAppend(wire, [m]);
    assert [m][1..] == [];
    assert Serial.Stream([m]) == Serial.Frame(m);
  }

  lemma UnknownApproval(am: Auth.AuthMap, macStr: string, now: Time)
    requires !Auth.Known(am, macStr)
    ensures Auth.Approved(am, macStr, now) == am
  {
  }

  lemma UnknownRejection(am: Auth.AuthMap, macStr: string)
    requires !Auth.Known(am, macStr)
    ensures Auth.Rejected(am, macStr) == am
  {
  }
}

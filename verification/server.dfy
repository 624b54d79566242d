// mesh/server.go and the handlers of mesh/api_v1_nodes.go as steps on values: one state, one function per handler.

module Server {
  import opened Base
  import opened Wire
  import opened Messages
  import opened Events
  import opened Replay
  import MacText
  import Uuid
  import Auth
  import Nodes
  import Commands
  import Liveness

  /** `attached`: the server is running with its serial line open; `eventStore`: Kafka is configured. */
  datatype Config = Config(timeout: Timeout, eventStore: bool, attached: bool, ops: OutputOpcodes)

  /** `live` holds the online flags and all published events; `wire` every frame written, both ports together. */
  datatype State = State(
    auth: Auth.AuthMap,
    nodes: Nodes.NodeMap,
    replay: Histories,
    commands: Commands.CommandMap,
    live: Liveness.Live,
    wire: seq<MeshMessage>)

  const INITIAL := State(map[], map[], map[], map[], Liveness.Live(map[], []), [])

  function Publish(s: State, e: Event): State
  {
    s.(live := s.live.(events := s.live.events + [e]))
  }

  function Send(c: Config, s: State, ms: seq<MeshMessage>): State
  {
    if c.attached then s.(wire := s.wire + ms) else s
  }

  // ---- Inbound messages ----

  /** What the nested switches of handleMessage make of a message. */
  datatype Action =
    | Ignore
    | Fail
    | Report(r: HealthReport)
    | AckToken(t0: byte, t1: byte)
    | Enroll(mac: Mac, key: Key)
    | MotionSeen(origin: seq<byte>)

  /** handleSerialData. */
  function ClassifySerial(m: MeshMessage): Action
  {
    if m.data == [] then Fail
    else if m.data[0] == OP_HEALTH_REPORT || m.data[0] == OP_NODE_HEALTH then
      match ParseHealthReport(m)
      case Ok(r) => Report(r)
      case Err(_) => Fail
    else if m.data[0] == OP_COMMAND_ACK then
      if |m.data| < 3 then Ignore else AckToken(m.data[1], m.data[2])
    else Ignore
  }

  function Classify(m: MeshMessage): Action
  {
    if m.messageType == TYPE_ADAPTER_DATA then
      if m.dataType == ADAPTER_SERIAL then ClassifySerial(m)
      else if m.dataType == ADAPTER_PIR then MotionSeen(m.origin)
      else Ignore
    else if m.messageType == TYPE_ENROLLMENT then
      if |m.origin| < 6 || |m.publicKey| != 32 then Fail else Enroll(m.origin[..6], m.publicKey)
    else Ignore
  }

  datatype Outcome = Handled | Dropped | Failed

  /** `chosen` is the command AckByToken settles on. */
  function Perform(c: Config, s: State, a: Action, chosen: Option<string>, now: Time): (State, Outcome)
  {
    match a
    case Ignore => (s, Handled)
    case Fail => (s, Failed)
    case Report(r) => (ReportHealth(c, s, r, now), Handled)
    case AckToken(_, _) => (AckCommand(s, chosen, now), Handled)
    case Enroll(mac, key) =>
      (s.(auth := Auth.Pended(s.auth, mac, key, now)), if Auth.IsApproved(s.auth, mac) then Failed else Handled)
    case MotionSeen(origin) => (ReportMotion(c, s, origin), Handled)
  }

  /** handleHealthReport. */
  function ReportHealth(c: Config, s: State, r: HealthReport, now: Time): State
  {
    var nodes := Nodes.Updated(s.nodes, r.mac, r.adapterType, r.uptime, r.hopCount, now);
    s.(nodes := nodes,
       live := Liveness.PublishHealth(s.live, nodes[MacText.MacToString(r.mac)], now, c.timeout))
  }

  /** handleCommandAck. */
  function AckCommand(s: State, chosen: Option<string>, now: Time): State
  {
    if chosen.Some? && chosen.value in s.commands then
      Publish(s.(commands := Commands.Acknowledged(s.commands, chosen.value, now)),
              CommandAck(chosen.value, s.commands[chosen.value].nodeID))
    else s
  }

  /** handlePIRData: without an event store it returns before publishing. */
  function ReportMotion(c: Config, s: State, origin: seq<byte>): State
  {
    var k := MacText.MacToString(origin);
    if c.eventStore && k in s.nodes then
      Publish(s, Motion(s.nodes[k].nodeID, s.nodes[k].name, s.nodes[k].zone, s.nodes[k].hopCount))
    else s
  }

  /** Messages the replay filter looks at. */
  predicate Tracked(m: MeshMessage)
  {
    m.protoVersion == 2 && m.epochNum > 0
  }

  function PairOf(m: MeshMessage): Pair
  {
    Pair(m.epochNum, m.seqNum)
  }

  /** handleMessage. */
  function HandleMessage(c: Config, s: State, m: MeshMessage, chosen: Option<string>, now: Time): (State, Outcome)
  {
    if m.protoVersion > 0 && m.protoVersion != 2 then (s, Dropped)
    else if !Tracked(m) then Perform(c, s, Classify(m), chosen, now)
    else if |m.origin| != 6 then (s, Dropped)
    else
      var s' := s.(replay := RecordFor(s.replay, m.origin, PairOf(m)));
      if Duplicate(HistoryOf(s.replay, m.origin), PairOf(m)) then (s', Dropped)
      else Perform(c, s', Classify(m), chosen, now)
  }

  // ---- Enrollment ----

  datatype ApprovalParams = ApprovalParams(nodeID: byte, name: string, zone: string, adapterType: string)

  /** The node whose ID an explicit approval takes over, if there is one. */
  function Displaced(p: ApprovalParams, mac: Mac, owner: Option<Nodes.NodeInfo>): Option<Nodes.NodeInfo>
  {
    if p.nodeID > 0 && owner.Some? && owner.value.mac != mac then owner else None
  }

  function AssignedID(nodes: Nodes.NodeMap, p: ApprovalParams): byte
  {
    if p.nodeID == 0 then Nodes.NextFree(nodes) else p.nodeID
  }

  /** The adapter type passed on from the displaced node, ADAPTER_UNKNOWN for none. */
  function InheritedType(p: ApprovalParams, displaced: Option<Nodes.NodeInfo>): i32
  {
    if displaced.Some? && p.adapterType == "" then displaced.value.adapterType else ADAPTER_UNKNOWN
  }

  function InheritedName(p: ApprovalParams, displaced: Option<Nodes.NodeInfo>): string
  {
    if displaced.Some? && p.name == "" then displaced.value.name else p.name
  }

  function InheritedZone(p: ApprovalParams, displaced: Option<Nodes.NodeInfo>): string
  {
    if displaced.Some? && p.zone == "" then displaced.value.zone else p.zone
  }

  /** The registry part of an approval: assign first, then mark the displaced node. */
  function ApprovedNodes(nodes: Nodes.NodeMap, mac: Mac, p: ApprovalParams, owner: Option<Nodes.NodeInfo>)
    : (updated: Nodes.NodeMap)
    ensures MacText.MacToString(mac) in updated
  {
    var displaced := Displaced(p, mac, owner);
    var updated := Nodes.Assigned(nodes, mac, AssignedID(nodes, p), InheritedName(p, displaced),
                                  InheritedZone(p, displaced));
    if displaced.Some? then Nodes.MarkedReplaced(updated, displaced.value.mac, MacText.MacToString(mac)) else updated
  }

  function ApprovalFrames(mac: Mac, key: Key, id: byte, inherited: i32): seq<MeshMessage>
  {
    [JoinAck(mac, key)]
    + (if id > 0 then [NodeIdSet(mac, id)] else [])
    + (if inherited != ADAPTER_UNKNOWN then [ConfigSet(mac, inherited)] else [])
  }

  /** ApproveEnrollment; `owner` is what GetNodeByID found for an explicit ID. */
  function Approve(c: Config, s: State, macStr: string, p: ApprovalParams, owner: Option<Nodes.NodeInfo>, now: Time)
    : State
  {
    if !Auth.Known(s.auth, macStr) then s
    else
      var auth := Auth.Approved(s.auth, macStr, now);
      var node := auth[MacText.Normalize(macStr)];
      var nodes := ApprovedNodes(s.nodes, node.mac, p, owner);
      var entry := nodes[MacText.MacToString(node.mac)];
      var typeName := if p.adapterType == "" then "unknown" else p.adapterType;
      Send(c, Publish(s.(auth := auth, nodes := nodes), Enrolled(entry.nodeID, entry.name, typeName)),
           ApprovalFrames(node.mac, node.publicKey, AssignedID(s.nodes, p),
                          InheritedType(p, Displaced(p, node.mac, owner))))
  }

  /** RejectEnrollment. */
  function Reject(c: Config, s: State, macStr: string): State
  {
    match MacText.ParseMAC(macStr)
    case None => s
    case Some(mac) =>
      if !Auth.Known(s.auth, macStr) then s
      else Send(c, s.(auth := Auth.Rejected(s.auth, macStr)), [Rejection(mac)])
  }

  // ---- Node administration ----

  function AdapterTypeFromString(t: string): Option<i32>
  {
    if t == "pir" then Some(ADAPTER_PIR)
    else if t == "led" then Some(ADAPTER_LED)
    else if t == "relay" then Some(ADAPTER_RELAY)
    else None
  }

  /** v1UpdateNode; absent fields keep the node's own. */
  function UpdateNode(c: Config, s: State, owner: Option<Nodes.NodeInfo>, name: Option<string>, zone: Option<string>,
                      adapterType: Option<string>): State
  {
    if owner.None? then s
    else if adapterType.Some? && AdapterTypeFromString(adapterType.value).None? then s
    else
      var n := owner.value;
      var s' := s.(nodes := Nodes.Assigned(s.nodes, n.mac, n.nodeID,
                                           if name.Some? then name.value else n.name,
                                           if zone.Some? then zone.value else n.zone));
      if adapterType.Some? && |n.mac| == 6 then
        Configure(c, s', n.mac, AdapterTypeFromString(adapterType.value).value)
      else s'
  }

  /** v1DeleteNode. */
  function DeleteNode(s: State, owner: Option<Nodes.NodeInfo>): State
  {
    if owner.None? then s else s.(nodes := Nodes.Removed(s.nodes, owner.value.mac))
  }

  function Configure(c: Config, s: State, target: Mac, adapterType: i32): State
  {
    Send(c, s, [ConfigSet(target, adapterType)])
  }

  predicate AdapterIsOutput(t: i32)
  {
    t == ADAPTER_LED || t == ADAPTER_RELAY
  }

  /** v1NodeCommand; the command is stored before it is sent, and stays pending if it cannot be sent. */
  function NodeCommand(c: Config, s: State, id: byte, owner: Option<Nodes.NodeInfo>, action: string,
                       colour: seq<byte>, u: UuidBytes, now: Time): State
  {
    if owner.None? || !AdapterIsOutput(owner.value.adapterType) then s
    else
      match Commands.Head(c.ops, action, colour)
      case Err(_) => s
      case Ok(head) =>
        Commands.HeadIsShort(c.ops, action, colour);
        var cmd := Commands.Command(Uuid.Format(u), id, action, now, Commands.Pending, None);
        Send(c, s.(commands := Commands.Stored(s.commands, cmd)),
             [NodeData(owner.value.adapterType, Commands.Payload(head, u))])
  }

  /** checkOfflineNodes, visiting the registry in some order. */
  function Sweep(c: Config, s: State, order: seq<string>, now: Time): State
    requires forall k :: k in order ==> k in s.nodes
  {
    s.(live := Liveness.MarkExpired(s.live, Liveness.Snapshot(s.nodes, order), now, c.timeout))
  }

  // ---- Steps and runs ----

  datatype Step =
    | Deliver(m: MeshMessage, chosen: Option<string>, now: Time)
    | ApproveEnrollment(macStr: string, params: ApprovalParams, owner: Option<Nodes.NodeInfo>, now: Time)
    | RejectEnrollment(macStr: string)
    | PatchNode(id: byte, owner: Option<Nodes.NodeInfo>, name: Option<string>, zone: Option<string>,
                adapterType: Option<string>)
    | RemoveNode(id: byte, owner: Option<Nodes.NodeInfo>)
    | IssueCommand(id: byte, owner: Option<Nodes.NodeInfo>, action: string, colour: seq<byte>, uuid: UuidBytes,
                   now: Time)
    | SweepOffline(order: seq<string>, now: Time)
    | ConfigureNode(target: Mac, newType: i32)
    | RequestHealth

  /** The choices a step records are ones the code could make, and a new command's UUID is fresh. */
  ghost predicate Enabled(s: State, t: Step)
  {
    match t
    case Deliver(m, chosen, _) =>
      var a := Classify(m);
      a.AckToken? ==> Commands.TokenOutcome(s.commands, a.t0, a.t1, chosen)
    case ApproveEnrollment(_, p, owner, _) => p.nodeID > 0 ==> Nodes.LookupOutcome(s.nodes, p.nodeID, owner)
    case PatchNode(id, owner, _, _, _) => id > 0 && Nodes.LookupOutcome(s.nodes, id, owner)
    case RemoveNode(id, owner) => id > 0 && Nodes.LookupOutcome(s.nodes, id, owner)
    case IssueCommand(id, owner, _, _, u, _) =>
      id > 0 && Nodes.LookupOutcome(s.nodes, id, owner) && Uuid.Format(u) !in s.commands
    case SweepOffline(order, _) => IsOrder(order, s.nodes.Keys)
    case _ => true
  }

  function Apply(c: Config, s: State, t: Step): State
    requires Enabled(s, t)
  {
    match t
    case Deliver(m, chosen, now) => HandleMessage(c, s, m, chosen, now).0
    case ApproveEnrollment(macStr, p, owner, now) => Approve(c, s, macStr, p, owner, now)
    case RejectEnrollment(macStr) => Reject(c, s, macStr)
    case PatchNode(_, owner, name, zone, adapterType) => UpdateNode(c, s, owner, name, zone, adapterType)
    case RemoveNode(_, owner) => DeleteNode(s, owner)
    case IssueCommand(id, owner, action, colour, u, now) => NodeCommand(c, s, id, owner, action, colour, u, now)
    case SweepOffline(order, now) => Sweep(c, s, order, now)
    case ConfigureNode(target, newType) => Configure(c, s, target, newType)
    case RequestHealth => Send(c, s, [HealthRequest()])
  }

  ghost predicate CanRun(c: Config, s: State, steps: seq<Step>)
    decreases steps
  {
    steps == [] || (Enabled(s, steps[0]) && CanRun(c, Apply(c, s, steps[0]), steps[1..]))
  }

  function Run(c: Config, s: State, steps: seq<Step>): State
    requires CanRun(c, s, steps)
    decreases steps
  {
    if steps == [] then s else Run(c, Apply(c, s, steps[0]), steps[1..])
  }
}
